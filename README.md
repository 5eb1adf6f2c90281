# Cell annotation generator, modelled in Dafny

`cell_annotation_generator.py` turns each well of a CD33 experiment into a Pascal VOC
annotation file. The cell mask of a well is a grid of integers, where 0 is background
and a positive value is a cell id. The cancer-positive ids come from a CSV file. For
each well the script does the following:

- it lists and sorts the two input folders, dropping `.DS_Store`;
- it reads the cancer ids, skipping the header line;
- it scans the mask once in row-major order, keeping per-id bounding boxes in four
  parallel lists plus a `found_cell` list and a counter;
- it keeps the found, in-crop, cancer-positive cells, shifts their boxes by fixed
  corrections and clamps them to the 800 x 800 image;
- it writes a 13-line header, one 12-line `<object>` block per kept cell, and the
  closing tag, under the name `Cancer_W<nn>_1.xml`.

The project has one module per stage:

- `Folders`: `clean_and_sort_folder_list`.
- `CancerCsv`: reading the cancer ids.
- `BoundingBoxes`: the scan, written as imperative Dafny over five `array`s that are
  updated in place in nested loops.
- `VocXml`: selection, correction, clamping and the XML lines.
- `Naming`: the file prefix and file names.
- `Pipeline`: the loop over the wells.
- `Text` and `Wrappers`: supporting definitions.

Python's `str.strip`, `str.split`, `int()` and `str()` of an integer are modelled in
`Text`. Files are not read: a directory listing is a `seq<string>` and a CSV file is
its `seq<string>` of lines. Folder contents are maps from file name to lines (CSV) or
to the mask grid. The output is the `seq<string>` of lines handed to `writelines`.

Each imperative operation is proved against a specification:

- The scan (`BoundingBoxes.ScanBoxes`) is proved against `ScanSpec`, which fixes
  every list entry and the counter for the whole mask.
- The emit loop (`VocXml.WriteAnnotation`) is proved against `Document`, which is
  built from the ids the loop keeps (`SelectedIds`).
- The folder cleaning is proved sorted, and a permutation of its input minus one
  `.DS_Store`.
- The CSV loop is proved against `CancerIds`.

The properties the script relies on are then proved about these specifications:

- tight, attained bounds;
- found if and only if present;
- the number of distinct ids;
- clamped, ordered boxes;
- the document layout, and that reading it back returns exactly the kept boxes;
- the prefix naming.

## Model

| member | source | states |
|---|---|---|
| Folders.CleanAndSortFolderList | cell_annotation_generator.py:23-28 | the result is sorted by Python's string order and holds the listing's entries with one `.DS_Store` removed, if there was one, and nothing else added or removed |
| Folders.RemoveFirst | cell_annotation_generator.py:25-26 | the `in` guard and `list.remove` of lines 25-26: when the element is present, its first occurrence is cut out and the entries before and after it keep their order, so exactly one copy leaves the multiset; when it is absent, the guard skips `remove` and the list is unchanged |
| Folders.Insert | cell_annotation_generator.py:27 | inserting into a sorted list keeps it sorted and adds exactly the one element |
| Folders.SortFileList | cell_annotation_generator.py:27 | `list.sort()`: the result is sorted and a permutation of the input |
| Folders.SortedPermutationUnique | cell_annotation_generator.py:27 | two sorted permutations of the same multiset are equal, so the sort's result is the one Python's `sort` gives |
| Folders.StrLeTotal | cell_annotation_generator.py:27 | Python's string order is total |
| Folders.StrLeTransitive | cell_annotation_generator.py:27 | Python's string order is transitive |
| Folders.StrLeAntisymmetric | cell_annotation_generator.py:27 | Python's string order is antisymmetric |
| Folders.StrLe | cell_annotation_generator.py:27 | the code-point order `sort` uses on strings; `StrLeTotal`, `StrLeTransitive` and `StrLeAntisymmetric` state that it is a total order |
| Text.StripStartSpec | cell_annotation_generator.py:45 | the leading cut of `strip` leaves the longest suffix not starting with whitespace |
| Text.StripEndSpec | cell_annotation_generator.py:45 | the trailing cut of `strip` leaves the longest prefix not ending with whitespace |
| Text.StripSlice | cell_annotation_generator.py:45 | `strip` returns a slice with only whitespace cut on either side, and its ends are not whitespace |
| Text.StripKeeps | cell_annotation_generator.py:45 | a string without whitespace at either end is returned unchanged by `strip` |
| Text.StripEndAppend | cell_annotation_generator.py:45 | `strip()` cuts trailing whitespace only behind the last non-space, so a field followed by a newline keeps the field |
| Text.Strip | cell_annotation_generator.py:45 | `line.strip()`; `StripSlice`, `StripStartSpec` and `StripEndSpec` state that it cuts exactly the whitespace at both ends |
| Text.SplitSpec | cell_annotation_generator.py:46 | `split(',')` has one more field than there are commas, no field contains a comma, and joining the fields with commas restores the string |
| Text.SplitJoin | cell_annotation_generator.py:46 | splitting a comma-join of comma-free fields gives the fields back |
| Text.SplitSeparatorFree | cell_annotation_generator.py:46 | a string without a comma splits into itself alone |
| Text.SplitPrefix | cell_annotation_generator.py:46 | a comma-free field followed by a comma splits off as the first field |
| Text.Split | cell_annotation_generator.py:46 | `split(',')`, with at least one field; `SplitSpec` and `SplitJoin` state that the fields are the comma-free pieces between the commas |
| Text.ParseDigitsAccepts | cell_annotation_generator.py:47 | a digit string is accepted exactly when it is non-empty and made of ASCII digits |
| Text.ParseIntOfIntToString | cell_annotation_generator.py:47 | `int(str(i)) == i` for every integer |
| Text.NatToStringShape | cell_annotation_generator.py:147-150 | `str(n)` is made of decimal digits only, has no leading zero when longer than one digit, and is one digit exactly when n < 10 |
| Text.ParseDigitsOfNatToString | cell_annotation_generator.py:147-150 | the numeral of n reads back as n |
| Text.NatToStringInjective | cell_annotation_generator.py:147-150 | different naturals print differently |
| Text.ParseInt | cell_annotation_generator.py:47 | `int()` of a field; `ParseDigitsAccepts` states which digit strings it accepts and `ParseIntOfIntToString` that it inverts `str()` |
| Text.NatToString | cell_annotation_generator.py:92 | `str(well_index + 1)` in the prefix; `NatToStringShape`, `ParseDigitsOfNatToString` and `NatToStringInjective` state its digits, that it reads back and that it tells numbers apart |
| Text.IntToString | cell_annotation_generator.py:147-150 | `str(v)` of a coordinate; `ParseIntOfIntToString` states that `int` reads it back as v |
| CancerCsv.ParseLine | cell_annotation_generator.py:45-47 | one data line: `strip`, `split(',')` into exactly two fields, `int` of the first; its properties are stated by `ParseLineSpec` and `ParseLineAccepts` |
| CancerCsv.ParseLineSpec | cell_annotation_generator.py:45-47 | an accepted line's stripped text is `f,g` with one comma and its id is `int(f)`; a rejected line is reported with its field count (not 2), or with the text before its one comma, which `int` rejects |
| CancerCsv.ParseLineAccepts | cell_annotation_generator.py:45-47 | conversely, a line whose stripped text is `f,g` with one comma and `int(f)` defined is accepted with id `int(f)` |
| CancerCsv.ParseLineOfRow | cell_annotation_generator.py:44-47 | a row `<id>,<rest>` with no further comma is read back as that id, whatever whitespace `rest` ends with, such as the newline `for line in f` keeps |
| CancerCsv.ParseLineOfNewlineRow | cell_annotation_generator.py:44-47 | the file line `5,x\n`, newline included, is read back as 5 |
| CancerCsv.ReadRowsFailureStays | cell_annotation_generator.py:44-47 | once a line has failed, the loop's outcome is that failure |
| CancerCsv.ReadRowsSpec | cell_annotation_generator.py:44-47 | reading the data lines succeeds exactly when each parses; the keys are then exactly their ids; otherwise the error names the first failing line and its reason |
| CancerCsv.ReadRows | cell_annotation_generator.py:44-47 | the loop over the data lines as a function of the parsed lines; `ReadRowsSpec` and `ReadRowsFailureStays` state its outcome |
| CancerCsv.CancerIdsSpec | cell_annotation_generator.py:42-47 | an empty file fails at the header; otherwise the table holds exactly the ids of the lines after the header when all parse, and otherwise the error names the first bad line |
| CancerCsv.CancerIds | cell_annotation_generator.py:42-47 | the header skip, then `ReadRows` of the rest; `CancerIdsSpec` states its outcome and `ParseCancerIds` computes it |
| CancerCsv.ParseCancerIds | cell_annotation_generator.py:41-47 | the header skip and loop compute `CancerIds` of the file's lines |
| CancerCsv.ReadTable | cell_annotation_generator.py:44-47 | the loop over the data lines fills the table line by line and stops at the first failing line |
| BoundingBoxes.VisitPosition | cell_annotation_generator.py:70-89 | a background entry changes nothing; a cell entry widens only its id's four bounds, marks it found, and counts it exactly when it was not found before |
| BoundingBoxes.ScanCell | cell_annotation_generator.py:69-89 | one visit keeps the scan invariant: every id's entries are the exact extremes over the positions visited so far, and the counter equals the number of found ids |
| BoundingBoxes.ScanRow | cell_annotation_generator.py:69-89 | a full row keeps the scan invariant, advanced to the start of the next row |
| BoundingBoxes.ScanBoxes | cell_annotation_generator.py:57-89 | the lists start at -1/`False` and the scan ends in `ScanSpec`: each id's entries are its exact box or the sentinels, and the counter is the number of distinct nonzero ids |
| BoundingBoxes.ScanCountsIds | cell_annotation_generator.py:84-89 | each id is counted once: the counter equals the number of distinct nonzero ids in the mask |
| BoundingBoxes.ScanFound | cell_annotation_generator.py:57-89 | `found_cell[id]` holds exactly when id is nonzero and occurs in the mask; an absent id keeps -1 in all four lists |
| BoundingBoxes.ScanBoxTight | cell_annotation_generator.py:65-82 | every position holding a found id lies inside its box, and each of the four bounds is attained by such a position |
| BoundingBoxes.ScanBoxInGrid | cell_annotation_generator.py:65-82 | a found id's box lies in the grid with `smallest <= largest` on both axes |
| BoundingBoxes.ScanSpecUnique | cell_annotation_generator.py:57-89 | the scan's result is determined by the mask |
| BoundingBoxes.ScanSpec | cell_annotation_generator.py:57-89 | each id's four entries are the extremes of its positions, or -1 when absent, `found_cell` marks the present nonzero ids, and the counter is their number; `ScanFound`, `ScanBoxTight`, `ScanCountsIds` and `ScanSpecUnique` state what follows, and `ScanBoxes` ends in it |
| BoundingBoxes.BoundedSetSize | cell_annotation_generator.py:84-89 | a set of ids drawn from `lo .. hi-1` has at most `hi - lo` elements |
| BoundingBoxes.NumFoundBound | cell_annotation_generator.py:84-89 | `num_found_cells < MAX_NUM_CELLS`, so every id of the emit loop indexes the lists |
| Naming.FilePrefix | cell_annotation_generator.py:92 | the prefix of a well; `FilePrefixNumber` and `FilePrefixInjective` state its shape and that it tells wells apart |
| Naming.XmlName | cell_annotation_generator.py:93 | `<prefix>_1.xml`; `XmlNameInjective` states that wells get distinct files |
| Naming.ImageName | cell_annotation_generator.py:101-102 | `<prefix>_6.jpg`, the image named in the header; `Header` uses it |
| Naming.FilePrefixNumber | cell_annotation_generator.py:92 | the prefix is `Cancer_W` followed by the well's number from 1, which reads back as that number; the leading zero appears exactly for wells with index below 9 |
| Naming.FilePrefixInjective | cell_annotation_generator.py:92 | different wells get different prefixes |
| Naming.XmlNameInjective | cell_annotation_generator.py:92-93 | different wells write different XML files |
| VocXml.InCrop | cell_annotation_generator.py:121-123 | the crop test on the unshifted box; used by `Selected` and `SelectedIdsSpec` |
| VocXml.Selected | cell_annotation_generator.py:119-126 | found, in the crop and cancer-positive: the three `continue` tests passed; `SelectedIdsSpec` and `EmitCell` state what follows from it |
| VocXml.Corrected | cell_annotation_generator.py:128-137 | the shifted and clamped box of an id; `CorrectedInImage` states that it lies in the image with ordered corners and equals the shifted box where no clamp applies |
| VocXml.Clamp | cell_annotation_generator.py:134-137 | `max(0, min(v, hi))` lies in `[0, hi]`, equals v inside the range, 0 below it and hi above it |
| VocXml.ClampMonotone | cell_annotation_generator.py:134-137 | clamping preserves `<=` |
| VocXml.CorrectedInImage | cell_annotation_generator.py:128-137 | every box written for a found cell lies in `[0, 800]` on both axes with ordered corners, and it is the scanned box plus the corrections where no clamping applies |
| VocXml.Header | cell_annotation_generator.py:98-112 | the 13 header lines naming `<prefix>_6.jpg`; `DocumentLayout` states they open the document |
| VocXml.CoordLine | cell_annotation_generator.py:147-150 | one `\t\t\t<tag>v</tag>` line; `ReadCoordOfCoordLine` states that it reads back as v |
| VocXml.ObjectBlock | cell_annotation_generator.py:140-153 | the 12 lines of one `<object>` block; `ReadBoxOfObjectBlock` states that it reads back as its box |
| VocXml.SelectedIdsSpec | cell_annotation_generator.py:118-126 | the ids kept for `lo .. hi-1` are exactly those that are found, in the crop and cancer-positive, each once, in increasing order |
| VocXml.SelectedIds | cell_annotation_generator.py:118-126 | the ids the emit loop keeps, in visiting order; `SelectedIdsSpec` states that they are exactly the selected ids of the range, increasing |
| VocXml.EmitCell | cell_annotation_generator.py:119-155 | a cell passing the three tests appends its corrected block and increments `cell_counter`; any other cell changes nothing |
| VocXml.WrittenStep | cell_annotation_generator.py:118-155 | one more pass of the emit loop appends the block of the new id exactly when that id is selected |
| VocXml.WriteAnnotation | cell_annotation_generator.py:113-158 | the lines written are the header, the blocks of the selected ids of `range(1, num_found_cells)` and the footer; `cell_counter` is the number of those ids |
| VocXml.BoxesOfIndex | cell_annotation_generator.py:128-137 | the k-th box written is the corrected box of the k-th kept id |
| VocXml.BlocksSnoc | cell_annotation_generator.py:154 | one more box appends its 12-line block |
| VocXml.BlocksLayout | cell_annotation_generator.py:140-154 | lines `12k .. 12k+11` of the blocks are the block of the k-th box |
| VocXml.DocumentLayout | cell_annotation_generator.py:98-158 | the document has `13 + 12n + 1` lines: the header, then the block of the k-th kept cell in increasing id order, then `</annotation>` |
| VocXml.ReadCoordOfCoordLine | cell_annotation_generator.py:147-150 | a coordinate line reads back as the value written on it |
| VocXml.ReadBoxOfObjectBlock | cell_annotation_generator.py:140-153 | an `<object>` block reads back as its box |
| VocXml.ReadObjectsSnoc | cell_annotation_generator.py:154 | a block appended to a readable run of blocks is read back last |
| VocXml.ReadObjectsOfBlocks | cell_annotation_generator.py:140-154 | a run of blocks reads back as the list of its boxes |
| VocXml.DocumentRoundTrip | cell_annotation_generator.py:98-158 | reading the written file back gives the corrected boxes of the kept cells in id order, and nothing else |
| VocXml.Document | cell_annotation_generator.py:98-158 | the lines the emit loop writes; `DocumentLayout` states its layout, `DocumentRoundTrip` that it reads back as the kept boxes, and `WriteAnnotation` produces it |
| VocXml.EmitBoundMissesCell | cell_annotation_generator.py:118 | for the mask `[[1, 2]]` with both ids cancer-positive, cell 2 is selected but never emitted |
| VocXml.FullRangeEmitsEverySelected | cell_annotation_generator.py:118-126 | with `range(1, MAX_NUM_CELLS)` the kept ids are exactly the selected cells |
| Pipeline.AnnotateWell | cell_annotation_generator.py:39-160 | one well fails exactly when its cancer CSV fails, with that error; otherwise it returns the scan result of the mask and the lines of `Document` for the well's prefix, bounded by `num_found_cells`, plus the matching counter and XML name |
| Pipeline.WellError | cell_annotation_generator.py:40-52 | the failure of well j, if any, in the order the script opens things; `RunWell` and `AnnotateWells` are proved to fail exactly as it says |
| Pipeline.RunWell | cell_annotation_generator.py:40-52 | well j fails exactly as the script fails there (missing cancer file, unreadable file, bad CSV, in the script's order); otherwise it is annotated as `AnnotateWell` says |
| Pipeline.AnnotatedUpToPrefix | cell_annotation_generator.py:35 | appending an annotation keeps the earlier wells' annotations |
| Pipeline.AnnotatedUpToAll | cell_annotation_generator.py:35 | the recursive per-prefix invariant gives every earlier well's annotation |
| Pipeline.AnnotateWells | cell_annotation_generator.py:35-160 | one annotation per mask file in listing order up to the first failing well; the run completes exactly when no well fails, and otherwise reports that well's error |
| Pipeline.AnnotateAll | cell_annotation_generator.py:31-35 | both listings are cleaned and sorted as `CleanAndSortFolderList` says, then the wells run as `AnnotateWells` says |

## Left out

- File and directory I/O (`os.listdir`, `open`, `pd.read_csv(...).to_numpy()`, `writelines`, `write`) is not modelled. Listings, CSV lines and mask grids are inputs, and the output is the list of lines. `os.path.join` and the folder names are not modelled, so files are looked up by name.
- Line 4 closes the module docstring with four quotes (`''''`), which leaves an unterminated string literal, so the file as written does not parse. The model follows the evident intent of a docstring closed by three quotes.
- Progress and status printing, including the float percentage (lines 36-37, 48, 54, 66-68, 94, 160), is left out because it has no effect on the results.
- `pd.read_csv` treats the mask CSV's first row as a header. The model starts from the array pandas returns.
- The mask must be rectangular with entries in `0 .. 1499`. This is a precondition (`ValidMask`). The model covers neither Python's negative indexing for negative ids nor the `IndexError` for ids of 1500 and above.
- Text.ParseInt: `int()` is modelled as strip, an optional sign, then one or more ASCII digits. Underscores between digits, non-ASCII digits and the limit of Python 3.11 and later (a numeral of more than 4300 digits raises `ValueError`) are not modelled, so `ParseInt` accepts some strings `int()` refuses and refuses some it accepts; none of these is a cell id. `strip()` removes the characters listed in `Text.IsSpace`, which are those for which Python's `str.isspace()` is true.
- `str.split(',')` is modelled; other separators are not needed.
- `list.sort()` is modelled by insertion on `seq<string>` instead of Timsort in place. `Folders.SortedPermutationUnique` shows that the result is what any correct sort gives.
- Which exception the script raises is not modelled; `Pipeline.RunError` records the failure and where it happened. A CSV line like `a,b,c` (which raises on tuple unpacking) and `x,1` (which raises in `int()`) are both modelled as the `CsvError` of the first bad line. A cancer file list shorter than the mask list becomes `MissingCancerFile`.
- `Pipeline.AnnotateWell` reads the CSV before touching the mask, as the script does. The mask-missing check in `Pipeline.RunWell` also comes after the CSV check.
- `Pipeline.Annotation` keeps the scan's lists next to the written lines, so that the result can be stated.
- `data_viewer.py`, `train.py` and `cell_CSV_files/cell_mask_visualizer.py` are not part of this model. They are user interfaces and wrappers over image and machine-learning libraries.
- The Python dictionary `cancer_positive_dict` is modelled as the `set<int>` of its keys, because every value is `True`.

## Findings

| source | as written | input that shows it | evidently intended | confidence | as-written member | corrected member |
|---|---|---|---|---|---|---|
| cell_annotation_generator.py:118 | `for cell_id in range(1, num_found_cells)` bounds the ids by the number of distinct cells | one-row mask `[[1, 2]]`, cancer ids `{1, 2}`: two cells are found, so the loop runs only over id 1, and cell 2 is in the crop and cancer-positive but is not written | `range(1, MAX_NUM_CELLS)`, i.e. every id of the per-id lists | not executed | VocXml.EmitBoundMissesCell | VocXml.FullRangeEmitsEverySelected |

`VocXml.WriteAnnotation` and `VocXml.Document` take the loop bound as a parameter:

- `Pipeline.AnnotateWell` passes `num_found_cells`, which is the code as written.
- With `MaxNumCells` as the bound, `VocXml.FullRangeEmitsEverySelected` shows that every selected cell is written.
- `VocXml.DocumentLayout` and `VocXml.DocumentRoundTrip` hold for either bound.
