/**
 * The terminal status grid of dumper.rb: `colonize_tables` assigns every table a cell
 * (column offset, row, field length) and `table_status` renders "name, then the status
 * right-justified" into that cell. The terminal height is a parameter; drawing is left out.
 */
module StatusGrid {
  import opened RubyString

  /** A table's cell: left offset `x`, row `y`, and the field `length` the text fills. */
  datatype Cell = Cell(x: nat, y: nat, length: int)

  /** What `place_string` is asked to draw: the text at row `y`, column `x`. */
  datatype Placement = Placement(y: nat, x: nat, text: string)

  /** `tables.each_slice(size)`: consecutive groups of `size`, the last one possibly shorter. */
  function Slices(tables: seq<string>, size: nat): (cols: seq<seq<string>>)
    requires size > 0
    decreases |tables|
  {
    if |tables| == 0 then []
    else if |tables| <= size then [tables]
    else [tables[..size]] + Slices(tables[size..], size)
  }

  /** The columns laid end to end. */
  function Concat(cols: seq<seq<string>>): seq<string>
  {
    if cols == [] then [] else cols[0] + Concat(cols[1..])
  }

  /** `vals.map(&:size).max`, taken as 0 for an empty column (which `each_slice` never yields). */
  function MaxLen(col: seq<string>): (m: nat)
    ensures forall i :: 0 <= i < |col| ==> |col[i]| <= m
    ensures |col| > 0 ==> exists i :: 0 <= i < |col| && |col[i]| == m
  {
    if col == [] then 0
    else
      var rest := MaxLen(col[1..]);
      assert forall i :: 1 <= i < |col| ==> col[i] == col[1..][i - 1];
      if |col[0]| >= rest then |col[0]| else rest
  }

  /** `cols_left[c]`: the left offset of column `c`, each column being its longest name plus 4 wide. */
  function Left(cols: seq<seq<string>>, c: nat): nat
    requires c <= |cols|
  {
    if c == 0 then 0 else Left(cols, c - 1) + MaxLen(cols[c - 1]) + 4
  }

  /** The `cols_left` hash once columns 0 to `col - 1` are measured: keys 0 to `col`. */
  function LeftsUpTo(cols: seq<seq<string>>, col: nat): map<nat, nat>
    requires col <= |cols|
  {
    map c: nat | c <= col :: Left(cols, c)
  }

  /** Line 86: the hash starts out holding the first column's offset, 0. */
  lemma LeftsFirst(cols: seq<seq<string>>, colsLeft: map<nat, nat>)
    requires colsLeft == map[0 := 0]
    ensures colsLeft == LeftsUpTo(cols, 0)
  {
    var m := LeftsUpTo(cols, 0);
    assert colsLeft.Keys == m.Keys;
  }

  /**
   * One round of line 91: the hash holds this column's offset, and adding the next one gives
   * the hash one column further on.
   */
  lemma LeftsNext(cols: seq<seq<string>>, col: nat, colsLeft: map<nat, nat>)
    requires col < |cols| && colsLeft == LeftsUpTo(cols, col)
    ensures col in colsLeft && colsLeft[col] == Left(cols, col)
    ensures colsLeft[col] + MaxLen(cols[col]) + 4 == Left(cols, col + 1)
    ensures colsLeft[col + 1 := colsLeft[col] + MaxLen(cols[col]) + 4] == LeftsUpTo(cols, col + 1)
  {
    var next, m := colsLeft[col + 1 := Left(cols, col + 1)], LeftsUpTo(cols, col + 1);
    assert next.Keys == m.Keys;
    forall c | c in m ensures next[c] == m[c] {
    }
  }

  /** The cell given to the name at row `y` of column `c`. */
  function CellAt(cols: seq<seq<string>>, c: nat, y: nat): Cell
    requires c < |cols|
  {
    Cell(Left(cols, c), y + 1, Left(cols, c + 1) - Left(cols, c) - 1)
  }

  /** (c, y) is a position of the grid. */
  predicate IsPos(cols: seq<seq<string>>, c: int, y: int)
  {
    0 <= c < |cols| && 0 <= y < |cols[c]|
  }

  /** Position (c1, y1) comes before (c2, y2) in the order the grid is filled. */
  predicate Before(c1: int, y1: int, c2: int, y2: int)
  {
    c1 < c2 || (c1 == c2 && y1 < y2)
  }

  /** The name at (c, y) does not occur again at a position after it and before (ce, ye). */
  ghost predicate LastBefore(cols: seq<seq<string>>, c: nat, y: nat, ce: int, ye: int)
    requires IsPos(cols, c, y)
  {
    forall c2, y2 :: IsPos(cols, c2, y2) && Before(c, y, c2, y2) && Before(c2, y2, ce, ye)
      ==> cols[c2][y2] != cols[c][y]
  }

  /** `coords` is the layout `colonize_tables` produces for `tables` on a `lines`-row terminal:
   *  its keys are the tables, and each holds the cell of the last grid position where its
   *  name stands (a later duplicate overwrites an earlier one). */
  ghost predicate Laid(tables: seq<string>, lines: int, coords: map<string, Cell>)
    requires lines >= 3
  {
    var cols := Slices(tables, lines - 2);
    && (forall t :: t in coords <==> t in tables)
    && forall t :: t in coords ==>
      exists c, y :: (IsPos(cols, c, y) && cols[c][y] == t
        && LastBefore(cols, c, y, |cols|, 0) && coords[t] == CellAt(cols, c, y))
  }

  /** A grid position, used to track where each recorded name was met. */
  datatype Pos = Pos(col: nat, row: nat)

  /**
   * The grid filled up to (but excluding) position (ce, ye): `coords` and `pos` have the
   * same keys, every name met so far is one of them, and each is placed where `pos` says.
   */
  ghost predicate Tracked(cols: seq<seq<string>>, coords: map<string, Cell>, pos: map<string, Pos>,
                          ce: int, ye: int)
  {
    pos.Keys == coords.Keys && Covered(cols, pos, ce, ye) && Placed(cols, coords, pos, ce, ye)
  }

  /** Every name met before (ce, ye) has a position no earlier than any place it was met. */
  ghost predicate Covered(cols: seq<seq<string>>, pos: map<string, Pos>, ce: int, ye: int)
  {
    forall c, y :: IsPos(cols, c, y) && Before(c, y, ce, ye) ==>
      cols[c][y] in pos && !Before(pos[cols[c][y]].col, pos[cols[c][y]].row, c, y)
  }

  /** Each tracked name stands at its position, met before (ce, ye), and holds that cell. */
  ghost predicate Placed(cols: seq<seq<string>>, coords: map<string, Cell>, pos: map<string, Pos>,
                         ce: int, ye: int)
  {
    forall t :: t in pos ==>
      && IsPos(cols, pos[t].col, pos[t].row) && Before(pos[t].col, pos[t].row, ce, ye)
      && cols[pos[t].col][pos[t].row] == t
      && t in coords && coords[t] == CellAt(cols, pos[t].col, pos[t].row)
  }

  /**
   * `colonize_tables`: slice the tables into columns of `lines - 2`, compute each column's
   * left offset from the widest name of the columns before it, and record every table's
   * cell. The map is the value the script keeps in `$table_coords`.
   */
  method ColonizeTables(tables: seq<string>, lines: int) returns (coords: map<string, Cell>)
    requires lines >= 3
    ensures Laid(tables, lines, coords)
  {
    var cols := EachSlice(tables, lines - 2);
    var colsLeft: map<nat, nat> := map[0 := 0];
    LeftsFirst(cols, colsLeft);
    coords := map[];
    ghost var pos: map<string, Pos> := map[];
    var col := 0;
    while col < |cols|
      invariant 0 <= col <= |cols|
      invariant colsLeft == LeftsUpTo(cols, col)
      invariant Tracked(cols, coords, pos, col, 0)
    {
      LeftsNext(cols, col, colsLeft);
      var left := colsLeft[col];
      var right := left + MaxLen(cols[col]) + 4;
      colsLeft := colsLeft[col + 1 := right];
      coords, pos := PlaceColumn(cols, col, left, right, coords, pos);
      col := col + 1;
    }
    LaidAll(tables, lines, cols, coords, pos);
  }

  /**
   * The inner `vals.each_with_index` of `colonize_tables`: every name of column `col` gets
   * the column's offset `left`, its row plus one, and the width up to the next column's
   * offset `right` less one.
   */
  method PlaceColumn(cols: seq<seq<string>>, col: nat, left: nat, right: nat,
                     coords: map<string, Cell>, ghost pos: map<string, Pos>)
    returns (coords': map<string, Cell>, ghost pos': map<string, Pos>)
    requires col < |cols|
    requires left == Left(cols, col) && right == Left(cols, col + 1)
    requires Tracked(cols, coords, pos, col, 0)
    ensures Tracked(cols, coords', pos', col + 1, 0)
  {
    var vals := cols[col];
    coords', pos' := coords, pos;
    var y := 0;
    while y < |vals|
      invariant 0 <= y <= |vals|
      invariant Tracked(cols, coords', pos', col, y)
    {
      var cell := Cell(left, y + 1, right - left - 1);
      TrackedAdd(cols, coords', pos', col, y);
      coords' := coords'[vals[y] := cell];
      pos' := pos'[vals[y] := Pos(col, y)];
      y := y + 1;
    }
    TrackedColumnDone(cols, coords', pos', col);
  }

  /** `tables.each_slice(size) {|e| cols << e}`. */
  method EachSlice(tables: seq<string>, size: nat) returns (cols: seq<seq<string>>)
    requires size > 0
    ensures cols == Slices(tables, size)
  {
    cols := [];
    var i := 0;
    while i < |tables|
      invariant 0 <= i <= |tables|
      invariant cols + Slices(tables[i..], size) == Slices(tables, size)
    {
      var next := if i + size <= |tables| then i + size else |tables|;
      SlicesStep(tables, size, i);
      cols := cols + [tables[i..next]];
      i := next;
    }
    assert tables[i..] == [];
  }

  /** One round of the slicing loop: the next slice starts at `i` and is `size` long at most. */
  lemma SlicesStep(tables: seq<string>, size: nat, i: nat)
    requires size > 0 && i < |tables|
    ensures var next := if i + size <= |tables| then i + size else |tables|;
      Slices(tables[i..], size) == [tables[i..next]] + Slices(tables[next..], size)
  {
    var rest := tables[i..];
    if |rest| <= size {
      var next := if i + size <= |tables| then i + size else |tables|;
      assert next == |tables|;
      assert tables[i..next] == rest;
      assert tables[next..] == [];
    } else {
      assert rest[..size] == tables[i..i + size];
      assert rest[size..] == tables[i + size..];
    }
  }

  /** A finished grid: the keys are exactly the tables, each at its last position. */
  lemma LaidAll(tables: seq<string>, lines: int, cols: seq<seq<string>>, coords: map<string, Cell>,
                pos: map<string, Pos>)
    requires lines >= 3 && cols == Slices(tables, lines - 2)
    requires Tracked(cols, coords, pos, |cols|, 0)
    ensures Laid(tables, lines, coords)
  {
    SlicesConcat(tables, lines - 2);
    forall t | t in coords
      ensures exists c, y :: (IsPos(cols, c, y) && cols[c][y] == t
        && LastBefore(cols, c, y, |cols|, 0) && coords[t] == CellAt(cols, c, y))
    {
      var p := pos[t];
      forall c2, y2 | IsPos(cols, c2, y2) && Before(p.col, p.row, c2, y2) && Before(c2, y2, |cols|, 0)
        ensures cols[c2][y2] != cols[p.col][p.row]
      {
      }
      assert IsPos(cols, p.col, p.row) && cols[p.col][p.row] == t;
    }
    forall t ensures t in coords <==> t in tables {
      InConcat(cols, t);
      if t in coords {
        var p := pos[t];
        assert IsPos(cols, p.col, p.row) && cols[p.col][p.row] == t;
      }
    }
  }

  /** A name is in the laid-out list exactly when it stands at some position of the grid. */
  lemma {:induction false} InConcat(cols: seq<seq<string>>, t: string)
    ensures t in Concat(cols) <==> exists c, y :: IsPos(cols, c, y) && cols[c][y] == t
    decreases |cols|
  {
    if cols != [] {
      InConcat(cols[1..], t);
      if t in cols[0] {
        var y :| 0 <= y < |cols[0]| && cols[0][y] == t;
        assert IsPos(cols, 0, y);
      }
      if exists c, y :: IsPos(cols[1..], c, y) && cols[1..][c][y] == t {
        var c, y :| IsPos(cols[1..], c, y) && cols[1..][c][y] == t;
        assert IsPos(cols, c + 1, y) && cols[c + 1][y] == t;
      }
      if exists c, y :: IsPos(cols, c, y) && cols[c][y] == t {
        var c, y :| IsPos(cols, c, y) && cols[c][y] == t;
        if c > 0 {
          assert IsPos(cols[1..], c - 1, y) && cols[1..][c - 1][y] == t;
        }
      }
    }
  }

  /** The columns up to `col + 1` lay end to end as those up to `col`, then column `col`. */
  lemma ConcatSnoc(cols: seq<seq<string>>, col: nat)
    requires col < |cols|
    ensures Concat(cols[..col + 1]) == Concat(cols[..col]) + cols[col]
  {
    ConcatAppend(cols[..col], [cols[col]]);
    assert cols[..col + 1] == cols[..col] + [cols[col]];
    assert Concat([cols[col]]) == cols[col] + Concat([]);
  }

  lemma {:induction false} ConcatAppend(a: seq<seq<string>>, b: seq<seq<string>>)
    ensures Concat(a + b) == Concat(a) + Concat(b)
    decreases |a|
  {
    if a != [] {
      assert (a + b)[1..] == a[1..] + b;
      ConcatAppend(a[1..], b);
    } else {
      assert a + b == b;
    }
  }

  /** Laying the slices end to end gives back the table list. */
  lemma {:induction false} SlicesConcat(tables: seq<string>, size: nat)
    requires size > 0
    ensures Concat(Slices(tables, size)) == tables
    decreases |tables|
  {
    if |tables| > size {
      SlicesConcat(tables[size..], size);
      assert tables == tables[..size] + tables[size..];
    } else if |tables| > 0 {
      assert Concat([tables]) == tables + Concat([]);
    }
  }

  /** A finished column: "filled before (col, end of column)" is "filled before (col + 1, 0)". */
  lemma TrackedColumnDone(cols: seq<seq<string>>, coords: map<string, Cell>, pos: map<string, Pos>,
                          col: nat)
    requires col < |cols|
    requires Tracked(cols, coords, pos, col, |cols[col]|)
    ensures Tracked(cols, coords, pos, col + 1, 0)
  {
    forall c, y | IsPos(cols, c, y) && Before(c, y, col + 1, 0)
      ensures cols[c][y] in pos && !Before(pos[cols[c][y]].col, pos[cols[c][y]].row, c, y)
    {
      assert Before(c, y, col, |cols[col]|);
    }
  }

  /** Recording the name at (col, y) keeps the invariant, one position further on. */
  lemma TrackedAdd(cols: seq<seq<string>>, coords: map<string, Cell>, pos: map<string, Pos>,
                   col: nat, y: nat)
    requires IsPos(cols, col, y)
    requires Tracked(cols, coords, pos, col, y)
    ensures Tracked(cols, coords[cols[col][y] := CellAt(cols, col, y)],
                    pos[cols[col][y] := Pos(col, y)], col, y + 1)
  {
    CoveredAdd(cols, pos, col, y);
    PlacedAdd(cols, coords, pos, col, y);
  }

  /** Recording a name keeps every name met so far covered. */
  lemma CoveredAdd(cols: seq<seq<string>>, pos: map<string, Pos>, col: nat, y: nat)
    requires IsPos(cols, col, y)
    requires Covered(cols, pos, col, y)
    ensures Covered(cols, pos[cols[col][y] := Pos(col, y)], col, y + 1)
  {
    var pos' := pos[cols[col][y] := Pos(col, y)];
    forall c, y' | IsPos(cols, c, y') && Before(c, y', col, y + 1)
      ensures cols[c][y'] in pos' && !Before(pos'[cols[c][y']].col, pos'[cols[c][y']].row, c, y')
    {
      if c != col || y' != y {
        assert Before(c, y', col, y);
      }
    }
  }

  /** Recording a name moves its key to the new position; the other keys stay put. */
  lemma PlacedAdd(cols: seq<seq<string>>, coords: map<string, Cell>, pos: map<string, Pos>,
                  col: nat, y: nat)
    requires IsPos(cols, col, y)
    requires Placed(cols, coords, pos, col, y)
    ensures Placed(cols, coords[cols[col][y] := CellAt(cols, col, y)],
                   pos[cols[col][y] := Pos(col, y)], col, y + 1)
  {
    var name := cols[col][y];
    var coords' := coords[name := CellAt(cols, col, y)];
    var pos' := pos[name := Pos(col, y)];
    forall t | t in pos'
      ensures IsPos(cols, pos'[t].col, pos'[t].row) && Before(pos'[t].col, pos'[t].row, col, y + 1)
      ensures cols[pos'[t].col][pos'[t].row] == t
      ensures t in coords' && coords'[t] == CellAt(cols, pos'[t].col, pos'[t].row)
    {
      if t != name {
        assert pos'[t] == pos[t] && coords'[t] == coords[t];
      }
    }
  }

  /** `n` items in slices of `size` make ceil(n / size) slices. */
  lemma CeilStep(n: nat, m: nat, size: nat)
    requires size > 0 && n == m + size && m > 0
    ensures (n + size - 1) / size == 1 + (m + size - 1) / size
  {
    assert m + size - 1 == n - 1;
    var a := n - 1;
    var q, r := a / size, a % size;
    assert a == q * size + r;
    assert a + size == (q + 1) * size + r;
    DivUnique(a + size, size, q + 1, r);
  }

  lemma DivUnique(x: nat, k: nat, q: nat, r: nat)
    requires k > 0 && r < k && x == q * k + r
    ensures x / k == q
  {
    var q', r' := x / k, x % k;
    assert x == q' * k + r';
    MulSucc(q, k);
    MulSucc(q', k);
    MulMono(q' + 1, q, k);
    MulMono(q + 1, q', k);
  }

  lemma MulSucc(a: nat, k: nat)
    ensures (a + 1) * k == a * k + k
  {
  }

  lemma {:induction false} MulMono(a: nat, b: nat, k: nat)
    ensures a <= b ==> a * k <= b * k
    decreases if a <= b then b - a else 0
  {
    if a < b {
      MulMono(a, b - 1, k);
      MulSucc(b - 1, k);
    }
  }

  /**
   * `each_slice` gives non-empty slices of at most `size` names, all full but the last,
   * ceil(n / size) of them, which laid end to end give back the list.
   */
  lemma {:induction false} SlicesShape(tables: seq<string>, size: nat)
    requires size > 0
    ensures var cols := Slices(tables, size);
      && (forall c :: 0 <= c < |cols| ==> 0 < |cols[c]| <= size)
      && (forall c :: 0 <= c < |cols| - 1 ==> |cols[c]| == size)
      && |cols| == (|tables| + size - 1) / size
      && Concat(cols) == tables
    decreases |tables|
  {
    SlicesConcat(tables, size);
    var cols := Slices(tables, size);
    if |tables| == 0 {
    } else if |tables| <= size {
      DivUnique(|tables| + size - 1, size, 1, |tables| - 1);
    } else {
      var rest := tables[size..];
      SlicesShape(rest, size);
      CeilStep(|tables|, |rest|, size);
      assert cols == [tables[..size]] + Slices(rest, size);
      assert |cols| == 1 + |Slices(rest, size)|;
    }
  }

  /** Column offsets strictly increase: each column starts past the widest name of every earlier one, plus 4. */
  lemma {:induction false} LeftIncreasing(cols: seq<seq<string>>, c1: nat, c2: nat)
    requires c1 < c2 <= |cols|
    ensures Left(cols, c1) + MaxLen(cols[c1]) + 4 <= Left(cols, c2)
    decreases c2
  {
    if c2 > c1 + 1 {
      LeftIncreasing(cols, c1, c2 - 1);
    }
  }

  /** The last position of `t` in the grid, whose cell `t` holds. */
  lemma PositionOf(tables: seq<string>, lines: int, coords: map<string, Cell>, t: string)
      returns (c: nat, y: nat)
    requires lines >= 3 && Laid(tables, lines, coords)
    requires t in coords
    ensures var cols := Slices(tables, lines - 2);
      IsPos(cols, c, y) && cols[c][y] == t && coords[t] == CellAt(cols, c, y)
  {
    var cols := Slices(tables, lines - 2);
    c, y :| IsPos(cols, c, y) && cols[c][y] == t
      && LastBefore(cols, c, y, |cols|, 0) && coords[t] == CellAt(cols, c, y);
  }

  /** Two different tables never share a screen cell. */
  lemma CellsDistinct(tables: seq<string>, lines: int, coords: map<string, Cell>, t1: string, t2: string)
    requires lines >= 3 && Laid(tables, lines, coords)
    requires t1 in coords && t2 in coords && t1 != t2
    ensures coords[t1].x != coords[t2].x || coords[t1].y != coords[t2].y
  {
    var c1, y1 := PositionOf(tables, lines, coords, t1);
    var c2, y2 := PositionOf(tables, lines, coords, t2);
    CellsAtDistinct(Slices(tables, lines - 2), c1, y1, c2, y2);
  }

  /** Different positions of the grid get different (x, y) cells. */
  lemma CellsAtDistinct(cols: seq<seq<string>>, c1: nat, y1: nat, c2: nat, y2: nat)
    requires IsPos(cols, c1, y1) && IsPos(cols, c2, y2) && (c1, y1) != (c2, y2)
    ensures CellAt(cols, c1, y1).x != CellAt(cols, c2, y2).x || CellAt(cols, c1, y1).y != CellAt(cols, c2, y2).y
  {
    if c1 < c2 {
      LeftIncreasing(cols, c1, c2);
    } else if c2 < c1 {
      LeftIncreasing(cols, c2, c1);
    }
  }

  /**
   * Every cell lies in rows 1 to `lines - 2` (row 0 is the banner) and is at least 3 wider
   * than its table's name.
   */
  lemma CellInGrid(tables: seq<string>, lines: int, coords: map<string, Cell>, t: string)
    requires lines >= 3 && Laid(tables, lines, coords)
    requires t in coords
    ensures 1 <= coords[t].y <= lines - 2
    ensures coords[t].length >= |t| + 3
  {
    var cols := Slices(tables, lines - 2);
    SlicesShape(tables, lines - 2);
    var c, y := PositionOf(tables, lines, coords, t);
    assert |cols[c][y]| <= MaxLen(cols[c]);
  }

  /**
   * A cell to the left of another ends before the other begins, with a blank column between:
   * a cell ends more than one column before the next column begins.
   */
  lemma CellsApart(tables: seq<string>, lines: int, coords: map<string, Cell>, t1: string, t2: string)
    requires lines >= 3 && Laid(tables, lines, coords)
    requires t1 in coords && t2 in coords
    requires coords[t1].x < coords[t2].x
    ensures coords[t1].x + coords[t1].length < coords[t2].x
  {
    var c1, y1 := PositionOf(tables, lines, coords, t1);
    var c2, y2 := PositionOf(tables, lines, coords, t2);
    CellsAtApart(Slices(tables, lines - 2), c1, y1, c2, y2);
  }

  /** A cell of an earlier column ends before the cells of a later column begin. */
  lemma CellsAtApart(cols: seq<seq<string>>, c1: nat, y1: nat, c2: nat, y2: nat)
    requires IsPos(cols, c1, y1) && IsPos(cols, c2, y2)
    requires CellAt(cols, c1, y1).x < CellAt(cols, c2, y2).x
    ensures CellAt(cols, c1, y1).x + CellAt(cols, c1, y1).length < CellAt(cols, c2, y2).x
  {
    if c2 < c1 {
      LeftIncreasing(cols, c2, c1);
    } else if c1 < c2 {
      LeftIncreasing(cols, c1, c2);
    }
  }

  /**
   * `table_status`: the name, then the status right-justified into what is left of the
   * cell's field, drawn at the table's row and column offset.
   */
  function TableStatus(coords: map<string, Cell>, table: string, status: string): (p: Placement)
    requires table in coords
    ensures p.y == coords[table].y && p.x == coords[table].x
    ensures |p.text| == |table| + (if |status| < coords[table].length - |table| then coords[table].length - |table| else |status|)
    ensures p.text[..|table|] == table
    ensures forall i :: |table| <= i < |p.text| - |status| ==> p.text[i] == ' '
    ensures p.text[|p.text| - |status|..] == status
  {
    var cell := coords[table];
    var text := table + RJust(status, cell.length - |table|);
    assert text[..|table|] == table;
    Placement(cell.y, cell.x, text)
  }

  /**
   * On a laid-out grid, every status token of at most 3 characters (`''`, `...`, `OK`, `--`,
   * `M`, `C`, `MC`) fills the cell exactly, so it ends flush with the cell's right edge and
   * overwrites whatever token was drawn there before.
   */
  lemma StatusFillsCell(tables: seq<string>, lines: int, coords: map<string, Cell>, t: string, status: string)
    requires lines >= 3 && Laid(tables, lines, coords)
    requires t in coords && |status| <= 3
    ensures |TableStatus(coords, t, status).text| == coords[t].length
    ensures TableStatus(coords, t, status).text[coords[t].length - |status|..] == status
  {
    CellInGrid(tables, lines, coords, t);
    StatusFitsField(coords, t, status);
  }

  /** A status no longer than the room left after the name is padded out to the full field. */
  lemma StatusFitsField(coords: map<string, Cell>, t: string, status: string)
    requires t in coords && |t| + |status| <= coords[t].length
    ensures |TableStatus(coords, t, status).text| == coords[t].length
    ensures TableStatus(coords, t, status).text[coords[t].length - |status|..] == status
  {
  }
}
