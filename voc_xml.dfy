/**
 * Selection, correction and Pascal VOC serialisation of the boxes of one well: the
 * emit loop walks the ids `1 .. limit-1`, keeps the found, in-crop, cancer-positive
 * ones, shifts and clamps each box, and writes one 12-line `<object>` block per kept
 * cell between a fixed 13-line header and the closing tag.
 */
module VocXml {
  import opened Wrappers
  import opened Text
  import opened BoundingBoxes
  import opened Naming

  const YCorrection: int := -12
  const XCorrection: int := 7
  const CropXTl: int := 0
  const CropYTl: int := 0
  const CropXBr: int := 800
  const CropYBr: int := 800

  /** The four coordinates of one `<bndbox>`. */
  datatype BndBox = BndBox(xmin: int, ymin: int, xmax: int, ymax: int)

  /** `max(0, min(v, hi))`: the value pulled into `[0, hi]`, unchanged when already inside. */
  function Clamp(v: int, hi: int): (r: int)
    requires 0 <= hi
    ensures 0 <= r <= hi
    ensures 0 <= v <= hi ==> r == v
    ensures v < 0 ==> r == 0
    ensures hi < v ==> r == hi
  {
    var low := if v < hi then v else hi;
    if 0 < low then low else 0
  }

  /** Clamping keeps order, so a box whose corners are in order stays so. */
  lemma ClampMonotone(v: int, w: int, hi: int)
    requires 0 <= hi && v <= w
    ensures Clamp(v, hi) <= Clamp(w, hi)
  {
  }

  /** The crop test of the emit loop: the unshifted box lies inside the crop rectangle. */
  predicate InCrop(b: Boxes, id: int)
    requires WellFormed(b) && 0 <= id < MaxNumCells
  {
    !(b.smallestX[id] < CropXTl || b.smallestY[id] < CropYTl ||
      b.largestX[id] > CropXBr || b.largestY[id] > CropYBr)
  }

  /** A cell the emit loop writes out when it reaches its id. */
  predicate Selected(b: Boxes, cancer: set<int>, id: int)
    requires WellFormed(b) && 0 <= id < MaxNumCells
  {
    b.found[id] && InCrop(b, id) && id in cancer
  }

  /** The box written for `id`: shifted by the corrections and the crop origin, then clamped. */
  function Corrected(b: Boxes, id: int): BndBox
    requires WellFormed(b) && 0 <= id < MaxNumCells
  {
    var minX := b.smallestX[id] + XCorrection - CropXTl;
    var minY := b.smallestY[id] + YCorrection - CropYTl;
    var maxX := b.largestX[id] + XCorrection - CropXTl;
    var maxY := b.largestY[id] + YCorrection - CropYTl;
    BndBox(Clamp(minX, CropXBr - CropXTl), Clamp(minY, CropYBr - CropYTl),
           Clamp(maxX, CropXBr - CropXTl), Clamp(maxY, CropYBr - CropYTl))
  }

  /**
   * Every box written for a cell the scan found lies in the 800 x 800 image and has
   * its corners in order; inside the image it is the scanned box moved by the
   * corrections.
   */
  lemma CorrectedInImage(m: Mask, b: Boxes, id: int)
    requires ValidMask(m) && ScanSpec(m, b) && 0 <= id < MaxNumCells && b.found[id]
    ensures var r := Corrected(b, id);
      0 <= r.xmin <= r.xmax <= CropXBr - CropXTl && 0 <= r.ymin <= r.ymax <= CropYBr - CropYTl
    ensures var r := Corrected(b, id);
      (b.largestX[id] + XCorrection <= CropXBr ==> r.xmin == b.smallestX[id] + XCorrection && r.xmax == b.largestX[id] + XCorrection) &&
      (YCorrection + b.smallestY[id] >= 0 && b.largestY[id] + YCorrection <= CropYBr ==> r.ymin == b.smallestY[id] + YCorrection && r.ymax == b.largestY[id] + YCorrection)
  {
    ScanBoxInGrid(m, b, id);
    ClampMonotone(b.smallestX[id] + XCorrection - CropXTl, b.largestX[id] + XCorrection - CropXTl, CropXBr - CropXTl);
    ClampMonotone(b.smallestY[id] + YCorrection - CropYTl, b.largestY[id] + YCorrection - CropYTl, CropYBr - CropYTl);
  }

  /**
   * The ids `lo .. hi-1` the emit loop writes out, in the order it visits them.
   */
  function SelectedIds(b: Boxes, cancer: set<int>, lo: int, hi: int): (r: seq<int>)
    requires WellFormed(b) && 0 <= lo && hi <= MaxNumCells
    ensures forall i :: 0 <= i < |r| ==> lo <= r[i] < hi
    decreases hi - lo
  {
    if hi <= lo then []
    else
      var r := SelectedIds(b, cancer, lo, hi - 1);
      if Selected(b, cancer, hi - 1) then r + [hi - 1] else r
  }

  /** The kept ids are exactly the selected ones of `lo .. hi-1`, each once, in increasing order. */
  lemma {:induction false} SelectedIdsSpec(b: Boxes, cancer: set<int>, lo: int, hi: int)
    requires WellFormed(b) && 0 <= lo && hi <= MaxNumCells
    ensures var r := SelectedIds(b, cancer, lo, hi);
      (forall k :: k in r <==> lo <= k < hi && Selected(b, cancer, k)) &&
      (forall i, j :: 0 <= i < j < |r| ==> r[i] < r[j])
    decreases hi - lo
  {
    if lo < hi {
      SelectedIdsSpec(b, cancer, lo, hi - 1);
    }
  }

  const ImageWidth: string := "800"
  const ImageHeight: string := "800"

  /** The 13 header lines, naming the image `<prefix>_6.jpg`. */
  function Header(prefix: string): seq<string>
  {
    [ "<annotation>\n",
      "\t<folder>training_images</folder>\n",
      "\t<filename>" + ImageName(prefix) + "</filename>\n",
      "\t<path>/root/data/" + ImageName(prefix) + "</path>\n",
      "\t<source>\n",
      "\t\t<database>Unknown</database>\n",
      "\t</source>\n",
      "\t<size>\n",
      "\t\t<width>" + ImageWidth + "</width>\n",
      "\t\t<height>" + ImageHeight + "</height>\n",
      "\t\t<depth>3</depth>\n",
      "\t</size>\n",
      "\t<segmented>0</segmented>\n" ]
  }

  const Footer: string := "</annotation>\n"

  /** The fixed lines that open an `<object>` block, up to `<bndbox>`. */
  const ObjectOpening: seq<string> := [
    "\t<object>\n",
    "\t\t<name>cancerCell</name>\n",
    "\t\t<pose>Unspecified</pose>\n",
    "\t\t<truncated>0</truncated>\n",
    "\t\t<difficult>0</difficult>\n",
    "\t\t<bndbox>\n" ]

  /** The fixed lines that close an `<object>` block. */
  const ObjectClosing: seq<string> := [
    "\t\t</bndbox>\n",
    "\t</object>\n" ]

  /** One coordinate line of a `<bndbox>`, `\t\t\t<tag>v</tag>`. */
  function CoordLine(tag: string, v: int): string
  {
    "\t\t\t<" + tag + ">" + IntToString(v) + "</" + tag + ">\n"
  }

  /** The 12-line `<object>` block of one box, each coordinate as `str` writes it. */
  function ObjectBlock(bb: BndBox): (r: seq<string>)
    ensures |r| == 12
  {
    ObjectOpening +
    [ CoordLine("xmin", bb.xmin),
      CoordLine("ymin", bb.ymin),
      CoordLine("xmax", bb.xmax),
      CoordLine("ymax", bb.ymax) ] +
    ObjectClosing
  }

  /** The boxes written for the ids `ids`, in that order. */
  function BoxesOf(b: Boxes, ids: seq<int>): (r: seq<BndBox>)
    requires WellFormed(b) && forall k :: 0 <= k < |ids| ==> 0 <= ids[k] < MaxNumCells
    ensures |r| == |ids|
  {
    if |ids| == 0 then [] else BoxesOf(b, ids[..|ids| - 1]) + [Corrected(b, ids[|ids| - 1])]
  }

  /** The `k`-th box written is the corrected box of the `k`-th id. */
  lemma {:induction false} BoxesOfIndex(b: Boxes, ids: seq<int>, k: int)
    requires WellFormed(b) && forall i :: 0 <= i < |ids| ==> 0 <= ids[i] < MaxNumCells
    requires 0 <= k < |ids|
    ensures BoxesOf(b, ids)[k] == Corrected(b, ids[k])
  {
    if k < |ids| - 1 {
      BoxesOfIndex(b, ids[..|ids| - 1], k);
    }
  }

  /** The `<object>` blocks of a list of boxes, one after the other. */
  function Blocks(boxes: seq<BndBox>): (r: seq<string>)
    ensures |r| == 12 * |boxes|
  {
    if |boxes| == 0 then []
    else Blocks(boxes[..|boxes| - 1]) + ObjectBlock(boxes[|boxes| - 1])
  }

  /** The whole file the script writes when its emit loop runs over `range(1, limit)`. */
  function Document(prefix: string, b: Boxes, cancer: set<int>, limit: int): seq<string>
    requires WellFormed(b) && limit <= MaxNumCells
  {
    Header(prefix) + Blocks(BoxesOf(b, SelectedIds(b, cancer, 1, limit))) + [Footer]
  }

  /**
   * One pass of the emit loop: the three `continue` tests, then the block of the
   * cell and one more in `cell_counter`.
   */
  method EmitCell(b: Boxes, cancer: set<int>, cellId: int, lines: seq<string>, cellCounter: nat)
    returns (lines': seq<string>, cellCounter': nat)
    requires WellFormed(b) && 0 <= cellId < MaxNumCells
    ensures Selected(b, cancer, cellId) ==>
      lines' == lines + ObjectBlock(Corrected(b, cellId)) && cellCounter' == cellCounter + 1
    ensures !Selected(b, cancer, cellId) ==> lines' == lines && cellCounter' == cellCounter
  {
    lines', cellCounter' := lines, cellCounter;
    if !b.found[cellId] {
      return;
    }
    if b.smallestX[cellId] < CropXTl || b.smallestY[cellId] < CropYTl ||
       b.largestX[cellId] > CropXBr || b.largestY[cellId] > CropYBr {
      return;
    }
    if cellId !in cancer {
      return;
    }
    lines' := lines' + ObjectBlock(Corrected(b, cellId));
    cellCounter' := cellCounter' + 1;
  }

  /**
   * The emit loop of the script, `for cell_id in range(1, numFoundCells)`, after the
   * header; it returns the lines written, footer included, and `cell_counter`.
   */
  method WriteAnnotation(prefix: string, b: Boxes, cancer: set<int>, numFoundCells: nat)
    returns (lines: seq<string>, cellCounter: nat)
    requires WellFormed(b) && numFoundCells <= MaxNumCells
    ensures lines == Document(prefix, b, cancer, numFoundCells)
    ensures cellCounter == |SelectedIds(b, cancer, 1, numFoundCells)|
  {
    var header := Header(prefix);
    lines := header;
    cellCounter := 0;
    var cellId := 1;
    while cellId < numFoundCells
      invariant 1 <= cellId && (cellId <= numFoundCells || cellId == 1)
      invariant lines == header + Blocks(BoxesOf(b, SelectedIds(b, cancer, 1, cellId)))
      invariant cellCounter == |SelectedIds(b, cancer, 1, cellId)|
    {
      WrittenStep(header, b, cancer, cellId);
      lines, cellCounter := EmitCell(b, cancer, cellId, lines, cellCounter);
      cellId := cellId + 1;
    }
    lines := lines + [Footer];
  }

  /** What one more pass of the emit loop adds to the lines written so far. */
  lemma WrittenStep(header: seq<string>, b: Boxes, cancer: set<int>, cellId: int)
    requires WellFormed(b) && 1 <= cellId < MaxNumCells
    ensures var ids, ids' := SelectedIds(b, cancer, 1, cellId), SelectedIds(b, cancer, 1, cellId + 1);
      (Selected(b, cancer, cellId) ==>
        header + Blocks(BoxesOf(b, ids')) == header + Blocks(BoxesOf(b, ids)) + ObjectBlock(Corrected(b, cellId)) &&
        |ids'| == |ids| + 1) &&
      (!Selected(b, cancer, cellId) ==> ids' == ids)
  {
    var ids := SelectedIds(b, cancer, 1, cellId);
    if Selected(b, cancer, cellId) {
      BoxesOfSnoc(b, ids, cellId);
      BlocksSnoc(BoxesOf(b, ids), Corrected(b, cellId));
      AppendAssoc(header, Blocks(BoxesOf(b, ids)), ObjectBlock(Corrected(b, cellId)));
    }
  }

  lemma AppendAssoc<T>(a: seq<T>, b: seq<T>, c: seq<T>)
    ensures (a + b) + c == a + (b + c)
  {
  }

  /** One more kept id adds its box at the end. */
  lemma BoxesOfSnoc(b: Boxes, ids: seq<int>, id: int)
    requires WellFormed(b) && forall k :: 0 <= k < |ids| ==> 0 <= ids[k] < MaxNumCells
    requires 0 <= id < MaxNumCells
    ensures BoxesOf(b, ids + [id]) == BoxesOf(b, ids) + [Corrected(b, id)]
  {
    assert (ids + [id])[..|ids|] == ids;
  }

  /** One more box adds its block at the end. */
  lemma BlocksSnoc(boxes: seq<BndBox>, bb: BndBox)
    ensures Blocks(boxes + [bb]) == Blocks(boxes) + ObjectBlock(bb)
  {
    assert (boxes + [bb])[..|boxes|] == boxes;
  }

  /** Where everything sits in the document: header, one block per kept cell in id order, footer. */
  lemma DocumentLayout(prefix: string, b: Boxes, cancer: set<int>, limit: int)
    requires WellFormed(b) && limit <= MaxNumCells
    ensures var d, ids := Document(prefix, b, cancer, limit), SelectedIds(b, cancer, 1, limit);
      |d| == 13 + 12 * |ids| + 1 && d[..13] == Header(prefix) && d[|d| - 1] == Footer &&
      forall k :: 0 <= k < |ids| ==> d[13 + 12 * k .. 13 + 12 * k + 12] == ObjectBlock(Corrected(b, ids[k]))
  {
    var ids := SelectedIds(b, cancer, 1, limit);
    var boxes := BoxesOf(b, ids);
    var header, blocks := Header(prefix), Blocks(boxes);
    ConcatParts(header, blocks, Footer);
    forall k | 0 <= k < |ids|
      ensures Document(prefix, b, cancer, limit)[13 + 12 * k .. 13 + 12 * k + 12] == ObjectBlock(Corrected(b, ids[k]))
    {
      BlocksLayout(boxes, k);
      BoxesOfIndex(b, ids, k);
      ConcatSlice(header, blocks, Footer, 12 * k, 12 * k + 12);
    }
  }

  lemma ConcatParts<T>(h: seq<T>, o: seq<T>, t: T)
    ensures var d := h + o + [t];
      |d| == |h| + |o| + 1 && d[..|h|] == h && d[|d| - 1] == t && d[|h|..|d| - 1] == o
  {
  }

  lemma ConcatSlice<T>(h: seq<T>, o: seq<T>, t: T, i: int, j: int)
    requires 0 <= i <= j <= |o|
    ensures (h + o + [t])[|h| + i .. |h| + j] == o[i..j]
  {
  }

  lemma {:induction false} BlocksLayout(boxes: seq<BndBox>, k: int)
    requires 0 <= k < |boxes|
    ensures Blocks(boxes)[12 * k .. 12 * k + 12] == ObjectBlock(boxes[k])
  {
    var front := boxes[..|boxes| - 1];
    var head, last := Blocks(front), ObjectBlock(boxes[|boxes| - 1]);
    assert Blocks(boxes) == head + last;
    if k < |boxes| - 1 {
      BlocksLayout(front, k);
      SliceOfLeft(head, last, 12 * k, 12 * k + 12);
    } else {
      SliceOfRight(head, last);
    }
  }

  lemma SliceOfLeft<T>(s: seq<T>, t: seq<T>, i: int, j: int)
    requires 0 <= i <= j <= |s|
    ensures (s + t)[i..j] == s[i..j]
  {
  }

  lemma SliceOfRight<T>(s: seq<T>, t: seq<T>)
    ensures (s + t)[|s|..|s| + |t|] == t
  {
  }

  /** The integer written between `open` and `close` on a line, if the line has that shape. */
  function ReadTag(line: string, open: string, close: string): Option<int>
  {
    if |line| >= |open| + |close| && line[..|open|] == open && line[|line| - |close|..] == close
    then ParseInt(line[|open|..|line| - |close|])
    else None
  }

  /** The value of a coordinate line with the given tag. */
  function ReadCoord(line: string, tag: string): Option<int>
  {
    ReadTag(line, "\t\t\t<" + tag + ">", "</" + tag + ">\n")
  }

  /** A coordinate line reads back as the value written on it. */
  lemma ReadCoordOfCoordLine(tag: string, v: int)
    ensures ReadCoord(CoordLine(tag, v), tag) == Some(v)
  {
    var open, close := "\t\t\t<" + tag + ">", "</" + tag + ">\n";
    var line := CoordLine(tag, v);
    assert line == open + IntToString(v) + close;
    assert line[..|open|] == open;
    assert line[|line| - |close|..] == close;
    assert line[|open|..|line| - |close|] == IntToString(v);
    ParseIntOfIntToString(v);
  }

  /** Reads the box back from a 12-line `<object>` block. */
  function ReadBox(block: seq<string>): Option<BndBox>
  {
    if |block| != 12 || block[..6] != ObjectOpening || block[10..] != ObjectClosing then None
    else
      var xmin := ReadCoord(block[6], "xmin");
      var ymin := ReadCoord(block[7], "ymin");
      var xmax := ReadCoord(block[8], "xmax");
      var ymax := ReadCoord(block[9], "ymax");
      if xmin.None? || ymin.None? || xmax.None? || ymax.None? then None
      else Some(BndBox(xmin.value, ymin.value, xmax.value, ymax.value))
  }

  /** A block reads back as the box it was written from. */
  lemma ReadBoxOfObjectBlock(bb: BndBox)
    ensures ReadBox(ObjectBlock(bb)) == Some(bb)
  {
    var block := ObjectBlock(bb);
    assert block[..6] == ObjectOpening && block[10..] == ObjectClosing;
    ReadCoordOfCoordLine("xmin", bb.xmin);
    ReadCoordOfCoordLine("ymin", bb.ymin);
    ReadCoordOfCoordLine("xmax", bb.xmax);
    ReadCoordOfCoordLine("ymax", bb.ymax);
  }

  /** Reads a run of `<object>` blocks back, from the last block to the first. */
  function ReadObjects(lines: seq<string>): Option<seq<BndBox>>
  {
    if |lines| == 0 then Some([])
    else if |lines| < 12 then None
    else
      match ReadBox(lines[|lines| - 12..])
      case None => None
      case Some(bb) =>
        match ReadObjects(lines[..|lines| - 12])
        case None => None
        case Some(rest) => Some(rest + [bb])
  }

  /** Reads the boxes back from a whole annotation file with the header of `prefix`. */
  function ReadDocument(prefix: string, lines: seq<string>): Option<seq<BndBox>>
  {
    if |lines| < 14 || lines[..13] != Header(prefix) || lines[|lines| - 1] != Footer then None
    else ReadObjects(lines[13..|lines| - 1])
  }

  /** The blocks of a list of boxes read back as that list. */
  lemma {:induction false} ReadObjectsOfBlocks(boxes: seq<BndBox>)
    ensures ReadObjects(Blocks(boxes)) == Some(boxes)
  {
    if |boxes| > 0 {
      var front, last := boxes[..|boxes| - 1], boxes[|boxes| - 1];
      assert boxes == front + [last];
      ReadObjectsOfBlocks(front);
      ReadObjectsOfBlocksStep(front, last, boxes);
    }
  }

  lemma ReadObjectsOfBlocksStep(front: seq<BndBox>, last: BndBox, boxes: seq<BndBox>)
    requires boxes == front + [last]
    requires ReadObjects(Blocks(front)) == Some(front)
    ensures ReadObjects(Blocks(boxes)) == Some(boxes)
  {
    BlocksSnoc(front, last);
    ReadBoxOfObjectBlock(last);
    ReadObjectsSnoc(Blocks(front), ObjectBlock(last), front, last);
  }

  /** A block added at the end of a readable run is read last. */
  lemma ReadObjectsSnoc(lines: seq<string>, block: seq<string>, rest: seq<BndBox>, bb: BndBox)
    requires ReadObjects(lines) == Some(rest) && |block| == 12 && ReadBox(block) == Some(bb)
    ensures ReadObjects(lines + block) == Some(rest + [bb])
  {
    var all := lines + block;
    assert all[|all| - 12..] == block;
    assert all[..|all| - 12] == lines;
  }

  /**
   * Reading the written file back gives the corrected box of every kept cell, in
   * increasing id order, and nothing else.
   */
  lemma DocumentRoundTrip(prefix: string, b: Boxes, cancer: set<int>, limit: int)
    requires WellFormed(b) && limit <= MaxNumCells
    ensures ReadDocument(prefix, Document(prefix, b, cancer, limit)) ==
      Some(BoxesOf(b, SelectedIds(b, cancer, 1, limit)))
  {
    var boxes := BoxesOf(b, SelectedIds(b, cancer, 1, limit));
    var header, blocks := Header(prefix), Blocks(boxes);
    ConcatParts(header, blocks, Footer);
    ReadObjectsOfBlocks(boxes);
  }

  /**
   * The emit loop as written runs over `range(1, num_found_cells)`, so a selected
   * cell whose id is not below the number of distinct cells is never written. In the
   * one-row mask `[[1, 2]]` with both cells cancer-positive, two cells are found,
   * both lie in the crop, and cell 2 is selected but not emitted.
   */
  lemma EmitBoundMissesCell(b: Boxes)
    requires ScanSpec([[1, 2]], b)
    ensures b.numFound == 2
    ensures Selected(b, {1, 2}, 2)
    ensures 2 !in SelectedIds(b, {1, 2}, 1, b.numFound)
  {
    var m: Mask := [[1, 2]];
    assert Scanned(m, 0, 0, |m|, 0) && m[0][0] == 1;
    assert Scanned(m, 0, 1, |m|, 0) && m[0][1] == 2;
    assert Occurs(m, 1) && Occurs(m, 2);
    forall id | id != 1 && id != 2 ensures !Occurs(m, id) {
      assert forall yy, xx :: Scanned(m, yy, xx, |m|, 0) ==> m[yy][xx] == 1 || m[yy][xx] == 2;
    }
    assert (set id | 1 <= id < MaxNumCells && Occurs(m, id)) == {1, 2};
    assert ValidMask(m);
    ScanFound(m, b, 2);
    ScanBoxTight(m, b, 2);
    ScanBoxInGrid(m, b, 2);
    SelectedIdsSpec(b, {1, 2}, 1, b.numFound);
  }

  /**
   * With the loop over every id of the per-id lists, `range(1, MAX_NUM_CELLS)`, every
   * selected cell is written: the kept ids are exactly the selected ones.
   */
  lemma FullRangeEmitsEverySelected(m: Mask, b: Boxes, cancer: set<int>)
    requires ScanSpec(m, b)
    ensures forall id :: id in SelectedIds(b, cancer, 1, MaxNumCells) <==>
      0 <= id < MaxNumCells && Selected(b, cancer, id)
  {
    ScanFound(m, b, 0);
    SelectedIdsSpec(b, cancer, 1, MaxNumCells);
  }
}
