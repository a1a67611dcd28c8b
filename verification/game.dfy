/**
 * The Minesweeper game object: the cell map, mine placement, the recursive
 * reveal, the click/flag handler and reset. The cell map is kept as a
 * sequence in key order (see Board.Key); the DOM, the timer's ticking and
 * the random number generator are outside the model.
 */
module Game {
  import opened Wrappers
  import opened Board

  datatype ConfigError = MinesCountNotAllowed(minesCount: int)

  /** `checkMinesCount`: the configurations construction accepts. */
  predicate MinesCountAllowed(width: int, height: int, minesCount: int): (allowed: bool)
    ensures width == 1 || height == 1 ==> (allowed <==> minesCount <= 0)
  {
    minesCount <= (width - 1) * (height - 1)
  }

  /**
   * An accepted mine count leaves at least width + height - 1 safe cells;
   * in particular it is at most the number of keys that can be drawn.
   */
  lemma AllowedLeavesSafeCells(width: nat, height: nat, minesCount: nat)
    requires width >= 1 && height >= 1
    requires MinesCountAllowed(width, height, minesCount)
    ensures minesCount + width + height - 1 <= width * height
    ensures minesCount <= width * height - 1
  {
    assert (width - 1) * (height - 1) == width * height - width - height + 1;
  }

  /** JavaScript's `value || fallback` on a count: 0 (or absent) takes the fallback. */
  function OrDefault(value: nat, fallback: nat): (r: nat)
    ensures r == value || r == fallback
    ensures value > 0 ==> r == value
    ensures fallback > 0 ==> r > 0
  {
    if value == 0 then fallback else value
  }

  /** `createRows`, cell-map part: one fresh cell per key, row by row. */
  method CreateCells(width: nat, height: nat) returns (cells: seq<Cell>)
    ensures |cells| == width * height
    ensures forall i :: 0 <= i < |cells| ==> cells[i] == NEW_CELL
  {
    cells := [];
    var y := 0;
    while y < height
      invariant 0 <= y <= height
      invariant |cells| == y * width
      invariant forall i :: 0 <= i < |cells| ==> cells[i] == NEW_CELL
    {
      var x := 0;
      while x < width
        invariant 0 <= x <= width
        invariant |cells| == y * width + x
        invariant forall i :: 0 <= i < |cells| ==> cells[i] == NEW_CELL
      {
        cells := cells + [NEW_CELL];
        x := x + 1;
      }
      assert (y + 1) * width == y * width + width;
      y := y + 1;
    }
  }

  // ---------------------------------------------------------------------------
  // What one reveal does to the cell map

  /** Mines and flags stay put and clicked cells stay clicked. */
  ghost predicate Grows(before: seq<Cell>, after: seq<Cell>)
  {
    && |after| == |before|
    && forall i :: 0 <= i < |before| ==>
         && after[i].isMine == before[i].isMine
         && after[i].flagged == before[i].flagged
         && (before[i].isClicked ==> after[i].isClicked)
  }

  /** Every cell around `p` is clicked. */
  ghost predicate AroundClicked(w: nat, h: nat, cells: seq<Cell>, p: Pos)
    requires |cells| == w * h
  {
    forall q :: InBounds(w, h, q) && Adjacent(p, q) ==> At(w, h, cells, q).isClicked
  }

  /**
   * Around `p` and around every cell the reveal newly clicked, if no
   * neighbour is a mine, every neighbour ends clicked.
   */
  ghost predicate ZeroAreaOpened(w: nat, h: nat, before: seq<Cell>, after: seq<Cell>, p: Pos)
    requires |before| == w * h && |after| == w * h
  {
    forall q :: InBounds(w, h, q)
      && (q == p || (!At(w, h, before, q).isClicked && At(w, h, after, q).isClicked))
      && NoMineAround(w, h, before, q)
      ==> AroundClicked(w, h, after, q)
  }

  /**
   * Every cell newly clicked other than `p` touches a clicked cell that has
   * no mine around it: the reveal spreads only out of zero areas.
   */
  ghost predicate ReachedFromZeroArea(w: nat, h: nat, before: seq<Cell>, after: seq<Cell>, p: Pos)
    requires |before| == w * h && |after| == w * h
  {
    forall q :: InBounds(w, h, q) && q != p
      && !At(w, h, before, q).isClicked && At(w, h, after, q).isClicked
      ==> exists r :: InBounds(w, h, r) && Adjacent(q, r)
            && At(w, h, after, r).isClicked && NoMineAround(w, h, before, r)
  }

  /** The effect of `clearClickArea(p)` on the cell map. */
  ghost predicate FloodFilled(w: nat, h: nat, before: seq<Cell>, after: seq<Cell>, p: Pos)
    requires |before| == w * h && InBounds(w, h, p)
  {
    && Grows(before, after)
    && At(w, h, after, p).isClicked
    && ZeroAreaOpened(w, h, before, after, p)
    && ReachedFromZeroArea(w, h, before, after, p)
  }

  /**
   * The flag action of a right click on an unclicked cell: flip its flag and
   * move the flag counter by one the other way, without clamping.
   */
  function ToggleFlag(cells: seq<Cell>, flagCount: int, k: nat): (r: (seq<Cell>, int))
    requires k < |cells|
    ensures |r.0| == |cells|
    ensures r.0[k] == cells[k].(flagged := !cells[k].flagged)
    ensures forall i :: 0 <= i < |cells| && i != k ==> r.0[i] == cells[i]
    ensures r.1 == if cells[k].flagged then flagCount + 1 else flagCount - 1
    ensures r.1 + Count(r.0, Flagged) == flagCount + Count(cells, Flagged)
  {
    var c := cells[k].(flagged := !cells[k].flagged);
    CountUpdate(cells, k, c, Flagged);
    (cells[k := c], if c.flagged then flagCount - 1 else flagCount + 1)
  }

  /** Flagging twice restores both the cell and the counter. */
  lemma ToggleFlagTwice(cells: seq<Cell>, flagCount: int, k: nat)
    requires k < |cells|
    ensures var once := ToggleFlag(cells, flagCount, k);
            ToggleFlag(once.0, once.1, k) == (cells, flagCount)
  {
    var once := ToggleFlag(cells, flagCount, k);
    var twice := ToggleFlag(once.0, once.1, k);
    assert twice.0 == cells;
  }

  // ---------------------------------------------------------------------------
  // Steps of the reveal proof. Each lemma names one step of ClearClickArea's
  // argument. Several (GrowsTransitive, LaterStaysClicked, Opened,
  // NoMineAroundKept) follow from their contracts alone; they stay separate
  // lemmas so that the method's own proof obligation stays small.

  /** ZeroAreaOpened for the newly clicked cells other than `p`. */
  ghost predicate ZeroAreaOpenedBesides(w: nat, h: nat, before: seq<Cell>, after: seq<Cell>, p: Pos)
    requires |before| == w * h && |after| == w * h
  {
    forall q :: InBounds(w, h, q) && q != p
      && !At(w, h, before, q).isClicked && At(w, h, after, q).isClicked
      && NoMineAround(w, h, before, q)
      ==> AroundClicked(w, h, after, q)
  }

  /** Clicking only `p` leaves no other newly clicked cell. */
  lemma NewlyClickedIsOnly(w: nat, h: nat, before: seq<Cell>, after: seq<Cell>, p: Pos)
    requires |before| == w * h && InBounds(w, h, p)
    requires after == before[Key(w, h, p) := before[Key(w, h, p)].(isClicked := true)]
    ensures ZeroAreaOpenedBesides(w, h, before, after, p)
    ensures ReachedFromZeroArea(w, h, before, after, p)
  {
    forall q | InBounds(w, h, q) && q != p
      ensures At(w, h, after, q) == At(w, h, before, q)
    {
      if Key(w, h, q) == Key(w, h, p) {
        KeyInjective(w, h, p, q);
      }
    }
  }

  /**
   * After revealing the neighbour `q` of `p`, the cells newly clicked since
   * the reveal of `p` began still have their zero areas opened.
   */
  lemma ClosureStep(w: nat, h: nat, entry: seq<Cell>, pre: seq<Cell>, post: seq<Cell>, p: Pos, q: Pos)
    requires |entry| == w * h && InBounds(w, h, q)
    requires Grows(entry, pre) && FloodFilled(w, h, pre, post, q)
    requires ZeroAreaOpenedBesides(w, h, entry, pre, p)
    ensures Grows(entry, post)
    ensures ZeroAreaOpenedBesides(w, h, entry, post, p)
  {
    forall r | InBounds(w, h, r) && r != p
      && !At(w, h, entry, r).isClicked && At(w, h, post, r).isClicked
      && NoMineAround(w, h, entry, r)
      ensures AroundClicked(w, h, post, r)
    {
      NoMineAroundKept(w, h, entry, pre, r);
      if At(w, h, pre, r).isClicked {
        assert AroundClicked(w, h, pre, r);
      }
    }
  }

  /** Exactly `m` mines, none on the last key, and none clicked. */
  ghost predicate MinesPlaced(w: nat, h: nat, m: nat, cells: seq<Cell>)
  {
    && w >= 1 && h >= 1 && |cells| == w * h
    && Count(cells, Mine) == m
    && !cells[w * h - 1].isMine
    && NoMineClicked(cells)
  }

  /** Clicking the safe cell `p` keeps the mines placed and clicks `p` alone. */
  lemma ClickOne(w: nat, h: nat, m: nat, before: seq<Cell>, after: seq<Cell>, p: Pos)
    requires MinesPlaced(w, h, m, before) && InBounds(w, h, p)
    requires !before[Key(w, h, p)].isMine
    requires after == before[Key(w, h, p) := before[Key(w, h, p)].(isClicked := true)]
    ensures MinesPlaced(w, h, m, after)
    ensures Grows(before, after) && At(w, h, after, p).isClicked
    ensures ZeroAreaOpenedBesides(w, h, before, after, p)
    ensures ReachedFromZeroArea(w, h, before, after, p)
    ensures 2 * Count(after, Unclicked) + 1
            <= 2 * Count(before, Unclicked) + (if At(w, h, before, p).isClicked then 1 else 0)
  {
    var k := Key(w, h, p);
    CountUpdate(before, k, after[k], Unclicked);
    CountUpdate(before, k, after[k], Mine);
    NewlyClickedIsOnly(w, h, before, after, p);
  }

  /** A neighbour of `p` in the snapshot can be revealed, and is not a mine. */
  lemma NeighbourIsSafe(w: nat, h: nat, entry: seq<Cell>, mid: seq<Cell>, cells: seq<Cell>, p: Pos, q: Pos)
    requires |entry| == w * h && |mid| == w * h
    requires NoMineAround(w, h, entry, p)
    requires Grows(entry, cells)
    requires q in Surrounded(w, h, mid, p)
    ensures InBounds(w, h, q) && !At(w, h, cells, q).isMine
    ensures !mid[Key(w, h, q)].isClicked
  {
  }

  /** Growth composes. */
  lemma GrowsTransitive(a: seq<Cell>, b: seq<Cell>, c: seq<Cell>)
    requires Grows(a, b) && Grows(b, c)
    ensures Grows(a, c)
  {
  }

  /** A neighbour clicked before a reveal is still clicked after it. */
  lemma LaterStaysClicked(w: nat, h: nat, pre: seq<Cell>, post: seq<Cell>, around: seq<Pos>, i: nat)
    requires |pre| == w * h && Grows(pre, post) && i < |around|
    requires forall j :: 0 <= j <= i ==> InBounds(w, h, around[j])
    requires forall j :: 0 <= j < i ==> At(w, h, pre, around[j]).isClicked
    requires At(w, h, post, around[i]).isClicked
    ensures forall j :: 0 <= j <= i ==> At(w, h, post, around[j]).isClicked
  {
  }

  /**
   * Every neighbour of `p` is either in the snapshot of unclicked neighbours
   * or was clicked already, so once the snapshot is done all are clicked.
   */
  lemma SnapshotCoversNeighbours(w: nat, h: nat, mid: seq<Cell>, cells: seq<Cell>, p: Pos, around: seq<Pos>)
    requires |mid| == w * h && Grows(mid, cells)
    requires around == Surrounded(w, h, mid, p)
    requires forall j :: 0 <= j < |around| ==> At(w, h, cells, around[j]).isClicked
    ensures AroundClicked(w, h, cells, p)
  {
    forall q | InBounds(w, h, q) && Adjacent(p, q)
      ensures At(w, h, cells, q).isClicked
    {
      if !At(w, h, mid, q).isClicked {
        assert q in around;
      }
    }
  }

  /**
   * One turn of the sweep over the snapshot `around` of the unclicked
   * neighbours of the zero-area cell `p`: after revealing `around[i]`, the
   * sweep's invariants hold for one more neighbour.
   */
  lemma SweepStep(w: nat, h: nat, entry: seq<Cell>, mid: seq<Cell>, pre: seq<Cell>, post: seq<Cell>,
                  p: Pos, around: seq<Pos>, i: nat)
    requires |entry| == w * h && |mid| == w * h && InBounds(w, h, p)
    requires NoMineAround(w, h, entry, p) && At(w, h, mid, p).isClicked
    requires around == Surrounded(w, h, mid, p) && i < |around|
    requires Grows(mid, pre) && Grows(entry, pre)
    requires forall j :: 0 <= j < i ==> At(w, h, pre, around[j]).isClicked
    requires ZeroAreaOpenedBesides(w, h, entry, pre, p)
    requires ReachedFromZeroArea(w, h, entry, pre, p)
    requires InBounds(w, h, around[i]) && FloodFilled(w, h, pre, post, around[i])
    ensures !AroundClicked(w, h, mid, p)
    ensures Grows(mid, post) && Grows(entry, post)
    ensures forall j :: 0 <= j < i + 1 ==> At(w, h, post, around[j]).isClicked
    ensures ZeroAreaOpenedBesides(w, h, entry, post, p)
    ensures ReachedFromZeroArea(w, h, entry, post, p)
  {
    var q := around[i];
    assert q in around;
    GrowsTransitive(mid, pre, post);
    ClosureStep(w, h, entry, pre, post, p, q);
    ReachStep(w, h, entry, pre, post, p, q);
    forall j | 0 <= j <= i
      ensures InBounds(w, h, around[j])
    {
      assert around[j] in around;
    }
    LaterStaysClicked(w, h, pre, post, around, i);
  }

  /** The parts of a reveal put together. */
  lemma Opened(w: nat, h: nat, entry: seq<Cell>, cells: seq<Cell>, p: Pos)
    requires |entry| == w * h && InBounds(w, h, p)
    requires Grows(entry, cells) && At(w, h, cells, p).isClicked
    requires ZeroAreaOpenedBesides(w, h, entry, cells, p)
    requires NoMineAround(w, h, entry, p) ==> AroundClicked(w, h, cells, p)
    requires ReachedFromZeroArea(w, h, entry, cells, p)
    ensures FloodFilled(w, h, entry, cells, p)
  {
  }

  /** A flag action keeps the mines placed. */
  lemma ToggleFlagKeepsMines(w: nat, h: nat, m: nat, cells: seq<Cell>, flagCount: int, k: nat)
    requires MinesPlaced(w, h, m, cells) && k < |cells|
    ensures MinesPlaced(w, h, m, ToggleFlag(cells, flagCount, k).0)
  {
    CountUpdate(cells, k, ToggleFlag(cells, flagCount, k).0[k], Mine);
  }

  /** Mines do not move, so whether a cell has a mine around it does not change. */
  lemma NoMineAroundKept(w: nat, h: nat, s: seq<Cell>, t: seq<Cell>, r: Pos)
    requires |s| == w * h && Grows(s, t)
    ensures NoMineAround(w, h, s, r) <==> NoMineAround(w, h, t, r)
  {
  }

  /**
   * After revealing the neighbour `q` of the zero-area cell `p`, every cell
   * newly clicked since the reveal of `p` began still touches a clicked
   * zero-area cell.
   */
  lemma ReachStep(w: nat, h: nat, entry: seq<Cell>, pre: seq<Cell>, post: seq<Cell>, p: Pos, q: Pos)
    requires |entry| == w * h && InBounds(w, h, p) && InBounds(w, h, q) && Adjacent(p, q)
    requires Grows(entry, pre) && FloodFilled(w, h, pre, post, q)
    requires NoMineAround(w, h, entry, p) && At(w, h, pre, p).isClicked
    requires ReachedFromZeroArea(w, h, entry, pre, p)
    ensures ReachedFromZeroArea(w, h, entry, post, p)
  {
    forall s | InBounds(w, h, s) && s != p
      && !At(w, h, entry, s).isClicked && At(w, h, post, s).isClicked
      ensures exists r :: (InBounds(w, h, r) && Adjacent(s, r)
                           && At(w, h, post, r).isClicked && NoMineAround(w, h, entry, r))
    {
      if At(w, h, pre, s).isClicked {
        var r :| InBounds(w, h, r) && Adjacent(s, r)
          && At(w, h, pre, r).isClicked && NoMineAround(w, h, entry, r);
        assert At(w, h, post, r).isClicked;
      } else if s == q {
        assert Adjacent(s, p) && At(w, h, post, p).isClicked;
      } else {
        var r :| InBounds(w, h, r) && Adjacent(s, r)
          && At(w, h, post, r).isClicked && NoMineAround(w, h, pre, r);
        NoMineAroundKept(w, h, entry, pre, r);
      }
    }
  }

  class Minesweeper {
    const width: nat
    const height: nat
    const minesCount: nat
    var cells: seq<Cell>
    var timeInSec: nat
    var isDisabled: bool
    var flagCount: int
    var isStarted: bool

    /** The board's shape and an accepted mine count. */
    ghost predicate Shaped()
      reads this`cells
    {
      && width >= 1 && height >= 1
      && |cells| == width * height
      && MinesCountAllowed(width, height, minesCount)
    }

    /** The game invariant once the mines are placed. */
    ghost predicate Valid()
      reads this`cells
    {
      Shaped() && MinesPlaced(width, height, minesCount, cells)
    }

    constructor (width: nat, height: nat, minesCount: nat)
      requires width >= 1 && height >= 1
      requires MinesCountAllowed(width, height, minesCount)
      ensures Valid()
      ensures this.width == width && this.height == height && this.minesCount == minesCount
      ensures forall i :: 0 <= i < |cells| ==> !cells[i].isClicked && !cells[i].flagged
      ensures timeInSec == 0 && !isDisabled && flagCount == minesCount && !isStarted
    {
      this.width := width;
      this.height := height;
      this.minesCount := minesCount;
      timeInSec := 0;
      isDisabled := false;
      flagCount := minesCount;
      isStarted := false;
      var created := CreateCells(width, height);
      cells := created;
      new;
      SetRandomMines();
    }

    /**
     * `new Mineweeper(args)`: applies the defaults 8, 8 and 10, then throws
     * when `checkMinesCount` rejects the mine count.
     */
    static method Create(width: nat, height: nat, minesCount: nat) returns (r: Result<Minesweeper, ConfigError>)
      ensures var w, h, m := OrDefault(width, 8), OrDefault(height, 8), OrDefault(minesCount, 10);
        && (r.Failure? <==> !MinesCountAllowed(w, h, m))
        && (r.Failure? ==> r.error == MinesCountNotAllowed(m))
        && (r.Success? ==>
             && fresh(r.value) && r.value.Valid()
             && r.value.width == w && r.value.height == h && r.value.minesCount == m
             && r.value.flagCount == m && r.value.timeInSec == 0
             && !r.value.isDisabled && !r.value.isStarted
             && forall i :: 0 <= i < |r.value.cells| ==> !r.value.cells[i].isClicked && !r.value.cells[i].flagged)
    {
      var w, h, m := OrDefault(width, 8), OrDefault(height, 8), OrDefault(minesCount, 10);
      if !MinesCountAllowed(w, h, m) {
        return Failure(MinesCountNotAllowed(m));
      }
      var game := new Minesweeper(w, h, m);
      return Success(game);
    }

    /**
     * `setRandomMines`: draw key indices until `minesCount` cells are mines.
     * `getRandomInt(0, size - 1)` yields 0 .. size - 2, so the last key,
     * the bottom-right cell, is never drawn. A draw that lands on a mine
     * changes nothing and is not modelled; each step draws a key that is
     * not yet a mine.
     */
    method SetRandomMines()
      requires Shaped()
      requires forall i :: 0 <= i < |cells| ==> cells[i] == NEW_CELL
      modifies this`cells
      ensures Valid()
      ensures |cells| == |old(cells)|
      ensures forall i :: 0 <= i < |cells| ==> !cells[i].isClicked && !cells[i].flagged
    {
      var count := minesCount;
      var size := width * height;
      AllowedLeavesSafeCells(width, height, minesCount);
      LastKey(width, height);
      while count > 0
        invariant 0 <= count <= minesCount
        invariant |cells| == size
        invariant Count(cells, Mine) == minesCount - count
        invariant !cells[size - 1].isMine
        invariant forall i :: 0 <= i < size ==> !cells[i].isClicked && !cells[i].flagged
      {
        var drawable := cells[..size - 1];
        assert cells == drawable + [cells[size - 1]];
        CountAppend(drawable, [cells[size - 1]], Mine);
        var index :| 0 <= index < size - 1 && !drawable[index].isMine;
        CountUpdate(cells, index, cells[index].(isMine := true), Mine);
        cells := cells[index := cells[index].(isMine := true)];
        count := count - 1;
      }
    }

    /**
     * `clearClickArea`: click the cell at `p`; when no unclicked neighbour is
     * a mine, reveal each unclicked neighbour the same way. The neighbour list
     * is taken once, so a later entry may already be clicked by the time its
     * turn comes. Flags are not consulted: a flagged cell can be clicked and
     * keeps its flag.
     */
    method ClearClickArea(p: Pos)
      requires Valid() && InBounds(width, height, p)
      requires !At(width, height, cells, p).isMine
      modifies this`cells
      ensures Valid()
      ensures FloodFilled(width, height, old(cells), cells, p)
      ensures old(At(width, height, cells, p).isClicked && AroundClicked(width, height, cells, p)) ==>
        cells == old(cells)
      decreases 2 * Count(cells, Unclicked) + (if At(width, height, cells, p).isClicked then 1 else 0)
    {
      var k := Key(width, height, p);
      var areaMinesCount := AreaMinesCount(width, height, cells, p);
      ghost var entry := cells;
      cells := cells[k := cells[k].(isClicked := true)];
      ghost var mid := cells;
      ClickOne(width, height, minesCount, entry, mid, p);
      ghost var idle := entry[k].isClicked && AroundClicked(width, height, entry, p);
      assert idle ==> mid == entry && AroundClicked(width, height, mid, p);
      AreaZeroIffNoMineAround(width, height, entry, p);
      if areaMinesCount == 0 {
        var around := Surrounded(width, height, cells, p);
        var i := 0;
        while i < |around|
          invariant 0 <= i <= |around|
          invariant Valid()
          invariant Grows(mid, cells) && Grows(entry, cells)
          invariant forall j :: 0 <= j < i ==> At(width, height, cells, around[j]).isClicked
          invariant ZeroAreaOpenedBesides(width, height, entry, cells, p)
          invariant ReachedFromZeroArea(width, height, entry, cells, p)
          invariant idle ==> cells == mid
        {
          var q := around[i];
          NeighbourIsSafe(width, height, entry, mid, cells, p, q);
          CountUnclickedShrinks(mid, cells, Key(width, height, q));
          ghost var pre := cells;
          ClearClickArea(q);
          SweepStep(width, height, entry, mid, pre, cells, p, around, i);
          i := i + 1;
        }
        SnapshotCoversNeighbours(width, height, mid, cells, p, around);
      }
      Opened(width, height, entry, cells, p);
    }

    /** `win`, state part: the board stops taking clicks. */
    method Win()
      modifies this`isDisabled
      ensures isDisabled
    {
      isDisabled := true;
    }

    /** `lose`, state part: the board stops taking clicks. */
    method Lose()
      modifies this`isDisabled
      ensures isDisabled
    {
      isDisabled := true;
    }

    /**
     * `_handleCellClick` on the cell at (x, y); `markFlag` is a right click.
     * A click that is not disabled starts the timer even when it is then
     * ignored. A right click on a clicked cell falls through to the reveal;
     * a left click on a flagged cell is ignored even when it is clicked.
     */
    method HandleCellClick(x: int, y: int, markFlag: bool)
      requires Valid() && InBounds(width, height, Pos(x, y))
      modifies this
      ensures Valid()
      ensures timeInSec == old(timeInSec)
      ensures flagCount + Count(cells, Flagged) == old(flagCount + Count(cells, Flagged))
      ensures old(isDisabled) ==>
        cells == old(cells) && flagCount == old(flagCount) && isDisabled && isStarted == old(isStarted)
      ensures !old(isDisabled) ==> isStarted
      ensures !old(isDisabled) ==>
        var p := Pos(x, y);
        var cell := old(At(width, height, cells, p));
        if cell.flagged && !markFlag then
          cells == old(cells) && flagCount == old(flagCount) && !isDisabled
        else if markFlag && !cell.isClicked then
          (cells, flagCount) == ToggleFlag(old(cells), old(flagCount), Key(width, height, p)) && !isDisabled
        else if cell.isMine then
          cells == old(cells) && flagCount == old(flagCount) && isDisabled
        else
          FloodFilled(width, height, old(cells), cells, p) && flagCount == old(flagCount)
          && isDisabled == HasWinner(cells, minesCount)
    {
      if isDisabled {
        return;
      }
      isStarted := true;
      var p := Pos(x, y);
      var k := Key(width, height, p);
      var cell := cells[k];
      if cell.flagged && !markFlag {
        return;
      }
      if markFlag && !cell.isClicked {
        FlagAction(k);
        return;
      }
      if cell.isMine {
        Lose();
      } else {
        ClearClickArea(p);
        CountSame(old(cells), cells, Flagged);
      }
      assert Valid();
      if HasWinner(cells, minesCount) {
        Win();
      }
    }

    /**
     * The flag branch of `_handleCellClick` on the cell with key `k`: flip
     * its flag and move the counter the other way.
     */
    method FlagAction(k: nat)
      requires Valid() && k < |cells|
      modifies this`cells, this`flagCount
      ensures Valid()
      ensures (cells, flagCount) == ToggleFlag(old(cells), old(flagCount), k)
    {
      ghost var before := cells;
      var cell := cells[k];
      cells := cells[k := cell.(flagged := !cell.flagged)];
      if cells[k].flagged {
        flagCount := flagCount - 1;
      } else {
        flagCount := flagCount + 1;
      }
      ToggleFlagKeepsMines(width, height, minesCount, before, old(flagCount), k);
      ghost var toggled := ToggleFlag(before, old(flagCount), k);
      assert cells == toggled.0 && flagCount == toggled.1;
    }

    /** Each cell's `reset`: no mine, not clicked, not flagged. */
    method ResetCells()
      requires Shaped()
      modifies this`cells
      ensures Shaped()
      ensures forall i :: 0 <= i < |cells| ==> cells[i] == NEW_CELL
    {
      var i := 0;
      while i < |cells|
        invariant 0 <= i <= |cells| == width * height
        invariant forall j :: 0 <= j < i ==> cells[j] == NEW_CELL
      {
        cells := cells[i := NEW_CELL];
        i := i + 1;
      }
    }

    /**
     * `reset`: clear every cell, place new mines, zero the clock and stop
     * it. The flag counter and the disabled flag are left as they were.
     */
    method Reset()
      requires Valid()
      modifies this
      ensures Valid()
      ensures forall i :: 0 <= i < |cells| ==> !cells[i].isClicked && !cells[i].flagged
      ensures timeInSec == 0 && !isStarted
      ensures flagCount == old(flagCount) && isDisabled == old(isDisabled)
    {
      ResetCells();
      SetRandomMines();
      timeInSec := 0;
      isStarted := false;
    }

    /** `_handleFaceClick`, state part: enable the board again and reset it. */
    method HandleFaceClick()
      requires Valid()
      modifies this
      ensures Valid()
      ensures !isDisabled
      ensures forall i :: 0 <= i < |cells| ==> !cells[i].isClicked && !cells[i].flagged
      ensures timeInSec == 0 && !isStarted && flagCount == old(flagCount)
    {
      isDisabled := false;
      Reset();
    }
  }
}
