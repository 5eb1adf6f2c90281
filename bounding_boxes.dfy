/**
 * The bounding-box scan: one row-major pass over a well's cell mask that records,
 * for every cell id, the smallest and largest column and row holding it, whether
 * the id was seen, and how many distinct ids were seen.
 */
module BoundingBoxes {

  /** The length of the per-id lists; every mask entry must index them. */
  const MaxNumCells: nat := 1500

  /** A cell mask as pandas hands it over: rows of cell ids, 0 for background. */
  type Mask = seq<seq<int>>

  function Width(m: Mask): nat
  {
    if |m| == 0 then 0 else |m[0]|
  }

  /** What the scan needs of a mask: a rectangle whose entries index the per-id lists. */
  predicate ValidMask(m: Mask)
  {
    (forall y :: 0 <= y < |m| ==> |m[y]| == Width(m)) &&
    (forall y, x :: 0 <= y < |m| && 0 <= x < |m[y]| ==> 0 <= m[y][x] < MaxNumCells)
  }

  /** Position `(yy, xx)` of the mask is visited before position `(y, x)` in row-major order. */
  predicate Scanned(m: Mask, yy: int, xx: int, y: int, x: int)
  {
    0 <= yy < |m| && 0 <= xx < |m[yy]| && (yy < y || (yy == y && xx < x))
  }

  /** `id` appears at some position visited before `(y, x)`. */
  ghost predicate OccursBefore(m: Mask, id: int, y: int, x: int)
  {
    exists yy, xx :: Scanned(m, yy, xx, y, x) && m[yy][xx] == id
  }

  /** `id` appears somewhere in the mask. */
  ghost predicate Occurs(m: Mask, id: int)
  {
    OccursBefore(m, id, |m|, 0)
  }

  /**
   * The entries kept for `id` once every position before `(y, x)` has been visited:
   * for a cell id that has appeared, it is marked found and the four bounds are the
   * exact extremes of its positions (each bound is attained); for background and for
   * ids that have not appeared, nothing was written (`False` and the sentinel -1).
   */
  ghost predicate CellBox(m: Mask, id: int, sx: int, sy: int, lx: int, ly: int, found: bool, y: int, x: int)
  {
    if id != 0 && OccursBefore(m, id, y, x) then
      found &&
      (forall yy, xx :: Scanned(m, yy, xx, y, x) && m[yy][xx] == id ==> sx <= xx <= lx && sy <= yy <= ly) &&
      (exists yy :: Scanned(m, yy, sx, y, x) && m[yy][sx] == id) &&
      (exists yy :: Scanned(m, yy, lx, y, x) && m[yy][lx] == id) &&
      (exists xx :: Scanned(m, sy, xx, y, x) && m[sy][xx] == id) &&
      (exists xx :: Scanned(m, ly, xx, y, x) && m[ly][xx] == id)
    else
      !found && sx == -1 && sy == -1 && lx == -1 && ly == -1
  }

  /**
   * The five per-id lists after every position before `(y, x)` has been visited:
   * one entry per possible id, each as `CellBox` says.
   */
  ghost predicate ScanState(m: Mask, sx: seq<int>, sy: seq<int>, lx: seq<int>, ly: seq<int>, found: seq<bool>,
                            y: int, x: int)
  {
    |sx| == MaxNumCells && |sy| == MaxNumCells && |lx| == MaxNumCells && |ly| == MaxNumCells &&
    |found| == MaxNumCells &&
    forall id :: 0 <= id < MaxNumCells ==> CellBox(m, id, sx[id], sy[id], lx[id], ly[id], found[id], y, x)
  }

  /** What the scan leaves behind: the five per-id lists and the counter. */
  datatype Boxes = Boxes(
    smallestX: seq<int>, smallestY: seq<int>,
    largestX: seq<int>, largestY: seq<int>,
    found: seq<bool>, numFound: nat)

  predicate WellFormed(b: Boxes)
  {
    |b.smallestX| == MaxNumCells && |b.smallestY| == MaxNumCells &&
    |b.largestX| == MaxNumCells && |b.largestY| == MaxNumCells &&
    |b.found| == MaxNumCells
  }

  /**
   * The scan of the whole mask: every id's entries are as `CellBox` says, and the
   * counter is the number of distinct cell ids in the mask.
   */
  ghost predicate ScanSpec(m: Mask, b: Boxes)
  {
    ScanState(m, b.smallestX, b.smallestY, b.largestX, b.largestY, b.found, |m|, 0) &&
    b.numFound == |set id | 1 <= id < MaxNumCells && Occurs(m, id)|
  }

  /** Visiting a position that holds another id leaves what is known about `id` as it was. */
  lemma CellBoxSkip(m: Mask, id: int, sx: int, sy: int, lx: int, ly: int, found: bool, y: int, x: int)
    requires 0 <= y < |m| && 0 <= x < |m[y]| && m[y][x] != id
    requires CellBox(m, id, sx, sy, lx, ly, found, y, x)
    ensures CellBox(m, id, sx, sy, lx, ly, found, y, x + 1)
  {
    assert forall yy, xx :: Scanned(m, yy, xx, y, x + 1) && m[yy][xx] == id ==> Scanned(m, yy, xx, y, x);
    assert forall yy, xx :: Scanned(m, yy, xx, y, x) ==> Scanned(m, yy, xx, y, x + 1);
  }

  /**
   * Visiting a position that holds cell `id`, with the updates of the script: the
   * bounds widen to include the position and the id is marked found.
   */
  lemma CellBoxVisit(m: Mask, id: int, sx: int, sy: int, lx: int, ly: int, found: bool,
                     sx': int, sy': int, lx': int, ly': int, y: int, x: int)
    requires 0 <= y < |m| && 0 <= x < |m[y]| && m[y][x] == id && id != 0
    requires CellBox(m, id, sx, sy, lx, ly, found, y, x)
    requires sx' == (if sx == -1 || x < sx then x else sx)
    requires sy' == (if sy == -1 || y < sy then y else sy)
    requires lx' == (if x > lx then x else lx)
    requires ly' == (if y > ly then y else ly)
    ensures sx' >= 0 && sy' >= 0 && lx' >= 0 && ly' >= 0
    ensures CellBox(m, id, sx', sy', lx', ly', true, y, x + 1)
  {
    assert Scanned(m, y, x, y, x + 1);
    assert forall yy, xx :: Scanned(m, yy, xx, y, x) ==> Scanned(m, yy, xx, y, x + 1);
    if OccursBefore(m, id, y, x) {
      var yy, xx :| Scanned(m, yy, xx, y, x) && m[yy][xx] == id;
      assert sx >= 0 && sy >= 0;
      forall yy, xx | Scanned(m, yy, xx, y, x + 1) && m[yy][xx] == id
        ensures sx' <= xx <= lx' && sy' <= yy <= ly'
      {
        if !(yy == y && xx == x) {
          assert Scanned(m, yy, xx, y, x);
        }
      }
    } else {
      assert forall yy, xx :: Scanned(m, yy, xx, y, x + 1) && m[yy][xx] == id ==> yy == y && xx == x;
    }
  }

  /** Every entry is the sentinel or a position of the mask. */
  lemma CellBoxRange(m: Mask, id: int, sx: int, sy: int, lx: int, ly: int, found: bool, y: int, x: int)
    requires CellBox(m, id, sx, sy, lx, ly, found, y, x)
    ensures sx >= -1 && sy >= -1 && lx >= -1 && ly >= -1
  {
  }

  /** The end of a row is the start of the next. */
  lemma CellBoxRowDone(m: Mask, id: int, sx: int, sy: int, lx: int, ly: int, found: bool, y: int)
    requires ValidMask(m) && 0 <= y < |m|
    requires CellBox(m, id, sx, sy, lx, ly, found, y, Width(m))
    ensures CellBox(m, id, sx, sy, lx, ly, found, y + 1, 0)
  {
    assert forall yy, xx :: Scanned(m, yy, xx, y, Width(m)) <==> Scanned(m, yy, xx, y + 1, 0);
  }

  /** Before the scan nothing is known of any id. */
  lemma ScanStart(m: Mask)
    ensures var none := seq(MaxNumCells, _ => -1);
      ScanState(m, none, none, none, none, seq(MaxNumCells, _ => false), 0, 0)
  {
    forall id | 0 <= id < MaxNumCells ensures !OccursBefore(m, id, 0, 0) {
      assert forall yy, xx :: !Scanned(m, yy, xx, 0, 0);
    }
  }

  /**
   * One visited position: background changes nothing; a cell id gets the updates
   * of the script at its own index of each list, and is then found.
   */
  lemma ScanStep(m: Mask, sx: seq<int>, sy: seq<int>, lx: seq<int>, ly: seq<int>, found: seq<bool>,
                 sx': seq<int>, sy': seq<int>, lx': seq<int>, ly': seq<int>, found': seq<bool>, y: int, x: int)
    requires ValidMask(m) && 0 <= y < |m| && 0 <= x < |m[y]|
    requires ScanState(m, sx, sy, lx, ly, found, y, x)
    requires m[y][x] == 0 ==> sx' == sx && sy' == sy && lx' == lx && ly' == ly && found' == found
    requires var c := m[y][x]; c != 0 ==>
      sx' == sx[c := if sx[c] == -1 || x < sx[c] then x else sx[c]] &&
      sy' == sy[c := if sy[c] == -1 || y < sy[c] then y else sy[c]] &&
      lx' == lx[c := if x > lx[c] then x else lx[c]] &&
      ly' == ly[c := if y > ly[c] then y else ly[c]] &&
      found' == found[c := true]
    ensures ScanState(m, sx', sy', lx', ly', found', y, x + 1)
  {
    var c := m[y][x];
    forall id | 0 <= id < MaxNumCells
      ensures CellBox(m, id, sx'[id], sy'[id], lx'[id], ly'[id], found'[id], y, x + 1)
    {
      if id == c && c != 0 {
        CellBoxVisit(m, c, sx[c], sy[c], lx[c], ly[c], found[c], sx'[c], sy'[c], lx'[c], ly'[c], y, x);
      } else if id != c {
        CellBoxSkip(m, id, sx[id], sy[id], lx[id], ly[id], found[id], y, x);
      }
    }
  }

  /** The end of a row is the start of the next, for all ids at once. */
  lemma ScanRowDone(m: Mask, sx: seq<int>, sy: seq<int>, lx: seq<int>, ly: seq<int>, found: seq<bool>, y: int)
    requires ValidMask(m) && 0 <= y < |m|
    requires ScanState(m, sx, sy, lx, ly, found, y, Width(m))
    ensures ScanState(m, sx, sy, lx, ly, found, y + 1, 0)
  {
    forall id | 0 <= id < MaxNumCells
      ensures CellBox(m, id, sx[id], sy[id], lx[id], ly[id], found[id], y + 1, 0)
    {
      CellBoxRowDone(m, id, sx[id], sy[id], lx[id], ly[id], found[id], y);
    }
  }

  /**
   * The body of the scan's inner loop for position `(y, x)`: a nonzero entry widens
   * its id's four bounds in place and, the first time they are all set, marks the id
   * found; `counted` says whether the counter must grow.
   */
  method VisitPosition(m: Mask, y: int, x: int,
                       smallestX: array<int>, smallestY: array<int>, largestX: array<int>, largestY: array<int>,
                       foundCell: array<bool>) returns (counted: bool)
    requires ValidMask(m) && 0 <= y < |m| && 0 <= x < |m[y]|
    requires smallestX.Length == MaxNumCells && smallestY.Length == MaxNumCells
    requires largestX.Length == MaxNumCells && largestY.Length == MaxNumCells && foundCell.Length == MaxNumCells
    requires smallestX != smallestY && smallestX != largestX && smallestX != largestY
    requires smallestY != largestX && smallestY != largestY && largestX != largestY
    requires var c := m[y][x];
      smallestX[c] >= -1 && smallestY[c] >= -1 && largestX[c] >= -1 && largestY[c] >= -1
    modifies smallestX, smallestY, largestX, largestY, foundCell
    ensures var c := m[y][x]; c == 0 ==>
      !counted && smallestX[..] == old(smallestX[..]) && smallestY[..] == old(smallestY[..]) &&
      largestX[..] == old(largestX[..]) && largestY[..] == old(largestY[..]) && foundCell[..] == old(foundCell[..])
    ensures var c := m[y][x]; var sx, sy, lx, ly := old(smallestX[c]), old(smallestY[c]), old(largestX[c]), old(largestY[c]);
      c != 0 ==>
      smallestX[..] == old(smallestX[..])[c := if sx == -1 || x < sx then x else sx] &&
      smallestY[..] == old(smallestY[..])[c := if sy == -1 || y < sy then y else sy] &&
      largestX[..] == old(largestX[..])[c := if x > lx then x else lx] &&
      largestY[..] == old(largestY[..])[c := if y > ly then y else ly] &&
      foundCell[..] == old(foundCell[..])[c := true] &&
      counted == !old(foundCell[c])
  {
    var cellId := m[y][x];
    counted := false;
    if cellId == 0 {
      return;
    }
    if smallestX[cellId] == -1 || x < smallestX[cellId] {
      smallestX[cellId] := x;
    }
    if smallestY[cellId] == -1 || y < smallestY[cellId] {
      smallestY[cellId] := y;
    }
    if x > largestX[cellId] {
      largestX[cellId] := x;
    }
    if y > largestY[cellId] {
      largestY[cellId] := y;
    }
    if !foundCell[cellId] &&
       smallestX[cellId] >= 0 && smallestY[cellId] >= 0 &&
       largestX[cellId] >= 0 && largestY[cellId] >= 0
    {
      foundCell[cellId] := true;
      counted := true;
    }
  }

  /** The counter and the ids it has counted agree with the `found_cell` list. */
  ghost predicate Counted(foundCell: seq<bool>, numFoundCells: nat, seen: set<int>)
  {
    numFoundCells == |seen| && forall id :: id in seen <==> 0 <= id < |foundCell| && foundCell[id]
  }

  /** One pass of the script's inner loop, at position `(y, x)`, with the counter. */
  method ScanCell(m: Mask, y: int, x: int,
                  smallestX: array<int>, smallestY: array<int>, largestX: array<int>, largestY: array<int>,
                  foundCell: array<bool>, numFoundCells: nat, ghost seen: set<int>)
    returns (numFoundCells': nat, ghost seen': set<int>)
    requires ValidMask(m) && 0 <= y < |m| && 0 <= x < |m[y]|
    requires smallestX != smallestY && smallestX != largestX && smallestX != largestY
    requires smallestY != largestX && smallestY != largestY && largestX != largestY
    requires ScanState(m, smallestX[..], smallestY[..], largestX[..], largestY[..], foundCell[..], y, x)
    requires Counted(foundCell[..], numFoundCells, seen)
    modifies smallestX, smallestY, largestX, largestY, foundCell
    ensures ScanState(m, smallestX[..], smallestY[..], largestX[..], largestY[..], foundCell[..], y, x + 1)
    ensures Counted(foundCell[..], numFoundCells', seen')
  {
    ghost var sx, sy, lx, ly, found := smallestX[..], smallestY[..], largestX[..], largestY[..], foundCell[..];
    ghost var c := m[y][x];
    CellBoxRange(m, c, sx[c], sy[c], lx[c], ly[c], found[c], y, x);
    var counted := VisitPosition(m, y, x, smallestX, smallestY, largestX, largestY, foundCell);
    numFoundCells', seen' := numFoundCells, seen;
    if counted {
      numFoundCells' := numFoundCells' + 1;
      seen' := seen' + {c};
    }
    ScanStep(m, sx, sy, lx, ly, found,
      smallestX[..], smallestY[..], largestX[..], largestY[..], foundCell[..], y, x);
  }

  /** The script's inner loop: visit row `y` from left to right. */
  method ScanRow(m: Mask, y: int,
                 smallestX: array<int>, smallestY: array<int>, largestX: array<int>, largestY: array<int>,
                 foundCell: array<bool>, numFoundCells: nat, ghost seen: set<int>)
    returns (numFoundCells': nat, ghost seen': set<int>)
    requires ValidMask(m) && 0 <= y < |m|
    requires smallestX != smallestY && smallestX != largestX && smallestX != largestY
    requires smallestY != largestX && smallestY != largestY && largestX != largestY
    requires ScanState(m, smallestX[..], smallestY[..], largestX[..], largestY[..], foundCell[..], y, 0)
    requires Counted(foundCell[..], numFoundCells, seen)
    modifies smallestX, smallestY, largestX, largestY, foundCell
    ensures ScanState(m, smallestX[..], smallestY[..], largestX[..], largestY[..], foundCell[..], y + 1, 0)
    ensures Counted(foundCell[..], numFoundCells', seen')
  {
    numFoundCells', seen' := numFoundCells, seen;
    var x := 0;
    while x < Width(m)
      invariant 0 <= x <= Width(m)
      invariant ScanState(m, smallestX[..], smallestY[..], largestX[..], largestY[..], foundCell[..], y, x)
      invariant Counted(foundCell[..], numFoundCells', seen')
    {
      numFoundCells', seen' := ScanCell(m, y, x, smallestX, smallestY, largestX, largestY, foundCell, numFoundCells', seen');
      x := x + 1;
    }
    ScanRowDone(m, smallestX[..], smallestY[..], largestX[..], largestY[..], foundCell[..], y);
  }

  /** After the last row, the counted ids are exactly the cell ids of the mask. */
  lemma ScanCountsIds(m: Mask, sx: seq<int>, sy: seq<int>, lx: seq<int>, ly: seq<int>, found: seq<bool>,
                      numFoundCells: nat, seen: set<int>)
    requires ScanState(m, sx, sy, lx, ly, found, |m|, 0)
    requires Counted(found, numFoundCells, seen)
    ensures numFoundCells == |set id | 1 <= id < MaxNumCells && Occurs(m, id)|
  {
    forall id | 0 <= id < MaxNumCells
      ensures found[id] <==> id != 0 && Occurs(m, id)
    {
      assert CellBox(m, id, sx[id], sy[id], lx[id], ly[id], found[id], |m|, 0);
    }
    assert seen == set id | 1 <= id < MaxNumCells && Occurs(m, id);
  }

  /**
   * The scan of the script over a mask: the four bound lists start at -1 and
   * `found_cell` at `False`; each nonzero entry widens its id's bounds, and the first
   * time an id's four bounds are all set it is marked found and counted.
   */
  method ScanBoxes(m: Mask) returns (b: Boxes)
    requires ValidMask(m)
    ensures ScanSpec(m, b)
  {
    var smallestX := new int[MaxNumCells](_ => -1);
    var smallestY := new int[MaxNumCells](_ => -1);
    var largestX := new int[MaxNumCells](_ => -1);
    var largestY := new int[MaxNumCells](_ => -1);
    var foundCell := new bool[MaxNumCells](_ => false);
    var numFoundCells: nat := 0;
    ghost var seen: set<int> := {};
    ScanStart(m);
    assert smallestX[..] == seq(MaxNumCells, _ => -1);
    assert smallestY[..] == seq(MaxNumCells, _ => -1);
    assert largestX[..] == seq(MaxNumCells, _ => -1);
    assert largestY[..] == seq(MaxNumCells, _ => -1);
    assert foundCell[..] == seq(MaxNumCells, _ => false);
    var y := 0;
    while y < |m|
      invariant 0 <= y <= |m|
      invariant ScanState(m, smallestX[..], smallestY[..], largestX[..], largestY[..], foundCell[..], y, 0)
      invariant Counted(foundCell[..], numFoundCells, seen)
    {
      numFoundCells, seen := ScanRow(m, y, smallestX, smallestY, largestX, largestY, foundCell, numFoundCells, seen);
      y := y + 1;
    }
    ScanCountsIds(m, smallestX[..], smallestY[..], largestX[..], largestY[..], foundCell[..], numFoundCells, seen);
    b := Boxes(smallestX[..], smallestY[..], largestX[..], largestY[..], foundCell[..], numFoundCells);
  }

  /**
   * After the scan, `found_cell[id]` holds exactly for the nonzero ids present in the
   * mask; an id that never occurs keeps the sentinel -1 in all four lists.
   */
  lemma ScanFound(m: Mask, b: Boxes, id: int)
    requires ScanSpec(m, b) && 0 <= id < MaxNumCells
    ensures b.found[id] <==> id != 0 && Occurs(m, id)
    ensures !b.found[id] ==>
      b.smallestX[id] == -1 && b.smallestY[id] == -1 && b.largestX[id] == -1 && b.largestY[id] == -1
  {
    assert CellBox(m, id, b.smallestX[id], b.smallestY[id], b.largestX[id], b.largestY[id], b.found[id], |m|, 0);
  }

  /**
   * The box of a found id is tight: every position holding the id lies inside it,
   * and each of the four bounds is attained by such a position.
   */
  lemma ScanBoxTight(m: Mask, b: Boxes, id: int)
    requires ScanSpec(m, b) && 0 <= id < MaxNumCells && b.found[id]
    ensures forall yy, xx :: 0 <= yy < |m| && 0 <= xx < |m[yy]| && m[yy][xx] == id ==>
      b.smallestX[id] <= xx <= b.largestX[id] && b.smallestY[id] <= yy <= b.largestY[id]
    ensures exists yy :: 0 <= yy < |m| && 0 <= b.smallestX[id] < |m[yy]| && m[yy][b.smallestX[id]] == id
    ensures exists yy :: 0 <= yy < |m| && 0 <= b.largestX[id] < |m[yy]| && m[yy][b.largestX[id]] == id
    ensures 0 <= b.smallestY[id] < |m| && exists xx :: 0 <= xx < |m[b.smallestY[id]]| && m[b.smallestY[id]][xx] == id
    ensures 0 <= b.largestY[id] < |m| && exists xx :: 0 <= xx < |m[b.largestY[id]]| && m[b.largestY[id]][xx] == id
  {
    var sx, sy, lx, ly := b.smallestX[id], b.smallestY[id], b.largestX[id], b.largestY[id];
    assert CellBox(m, id, sx, sy, lx, ly, b.found[id], |m|, 0);
    assert forall yy, xx :: 0 <= yy < |m| && 0 <= xx < |m[yy]| ==> Scanned(m, yy, xx, |m|, 0);
    var y1 :| Scanned(m, y1, sx, |m|, 0) && m[y1][sx] == id;
    var y2 :| Scanned(m, y2, lx, |m|, 0) && m[y2][lx] == id;
    var x1 :| Scanned(m, sy, x1, |m|, 0) && m[sy][x1] == id;
    var x2 :| Scanned(m, ly, x2, |m|, 0) && m[ly][x2] == id;
  }

  /** The box of a found id lies in the mask's grid and has its corners in order. */
  lemma ScanBoxInGrid(m: Mask, b: Boxes, id: int)
    requires ValidMask(m) && ScanSpec(m, b) && 0 <= id < MaxNumCells && b.found[id]
    ensures 0 <= b.smallestX[id] <= b.largestX[id] < Width(m)
    ensures 0 <= b.smallestY[id] <= b.largestY[id] < |m|
  {
    ScanBoxTight(m, b, id);
    var y1 :| 0 <= y1 < |m| && 0 <= b.smallestX[id] < |m[y1]| && m[y1][b.smallestX[id]] == id;
    var y2 :| 0 <= y2 < |m| && 0 <= b.largestX[id] < |m[y2]| && m[y2][b.largestX[id]] == id;
    var x1 :| 0 <= x1 < |m[b.smallestY[id]]| && m[b.smallestY[id]][x1] == id;
  }

  /**
   * The result of the scan is determined by the mask: two results meeting the
   * specification are equal, so `ScanSpec` describes exactly what the script computes.
   */
  lemma ScanSpecUnique(m: Mask, b1: Boxes, b2: Boxes)
    requires ScanSpec(m, b1) && ScanSpec(m, b2)
    ensures b1 == b2
  {
    forall id | 0 <= id < MaxNumCells
      ensures b1.smallestX[id] == b2.smallestX[id] && b1.smallestY[id] == b2.smallestY[id]
      ensures b1.largestX[id] == b2.largestX[id] && b1.largestY[id] == b2.largestY[id]
      ensures b1.found[id] == b2.found[id]
    {
      ScanFound(m, b1, id);
      ScanFound(m, b2, id);
      if b1.found[id] {
        ScanBoxTight(m, b1, id);
        ScanBoxTight(m, b2, id);
        ScanSameBounds(m, b1, b2, id);
      }
    }
    assert b1.smallestX == b2.smallestX && b1.smallestY == b2.smallestY;
    assert b1.largestX == b2.largestX && b1.largestY == b2.largestY && b1.found == b2.found;
  }

  lemma ScanSameBounds(m: Mask, b1: Boxes, b2: Boxes, id: int)
    requires ScanSpec(m, b1) && ScanSpec(m, b2) && 0 <= id < MaxNumCells && b1.found[id] && b2.found[id]
    ensures b1.smallestX[id] == b2.smallestX[id] && b1.smallestY[id] == b2.smallestY[id]
    ensures b1.largestX[id] == b2.largestX[id] && b1.largestY[id] == b2.largestY[id]
  {
    ScanBoxTight(m, b1, id);
    ScanBoxTight(m, b2, id);
    var b := b1;
    var y1 :| 0 <= y1 < |m| && 0 <= b.smallestX[id] < |m[y1]| && m[y1][b.smallestX[id]] == id;
    var y2 :| 0 <= y2 < |m| && 0 <= b.largestX[id] < |m[y2]| && m[y2][b.largestX[id]] == id;
    var x1 :| 0 <= x1 < |m[b.smallestY[id]]| && m[b.smallestY[id]][x1] == id;
    var x2 :| 0 <= x2 < |m[b.largestY[id]]| && m[b.largestY[id]][x2] == id;
    b := b2;
    var y3 :| 0 <= y3 < |m| && 0 <= b.smallestX[id] < |m[y3]| && m[y3][b.smallestX[id]] == id;
    var y4 :| 0 <= y4 < |m| && 0 <= b.largestX[id] < |m[y4]| && m[y4][b.largestX[id]] == id;
    var x3 :| 0 <= x3 < |m[b.smallestY[id]]| && m[b.smallestY[id]][x3] == id;
    var x4 :| 0 <= x4 < |m[b.largestY[id]]| && m[b.largestY[id]][x4] == id;
  }

  /** A set of integers drawn from `lo .. hi-1` has at most `hi - lo` elements. */
  lemma {:induction false} BoundedSetSize(ids: set<int>, lo: int, hi: int)
    requires lo <= hi
    requires forall id :: id in ids ==> lo <= id < hi
    ensures |ids| <= hi - lo
    decreases hi - lo
  {
    if lo < hi {
      BoundedSetSize(ids - {hi - 1}, lo, hi - 1);
    } else {
      assert ids == {};
    }
  }

  /**
   * The counter stays below the list length, so every id of `range(1, num_found_cells)`
   * indexes the per-id lists.
   */
  lemma NumFoundBound(m: Mask, b: Boxes)
    requires ScanSpec(m, b)
    ensures b.numFound < MaxNumCells
  {
    BoundedSetSize(set id | 1 <= id < MaxNumCells && Occurs(m, id), 1, MaxNumCells);
  }

}
