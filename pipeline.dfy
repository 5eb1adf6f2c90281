/**
 * The script's main loop over the wells: the two folder listings are cleaned and
 * sorted, and well `i` pairs the `i`-th mask file with the `i`-th cancer file; for
 * each it reads the cancer ids, scans the mask and writes the annotation file.
 * Files are given as maps from file name to contents instead of being read.
 */
module Pipeline {
  import opened Wrappers
  import opened Folders
  import opened CancerCsv
  import opened BoundingBoxes
  import opened VocXml
  import opened Naming

  /**
   * What the script holds for one well once its file is written: the scan lists and
   * counter, the file name, the lines written to it and `cell_counter`.
   */
  datatype Annotation = Annotation(boxes: Boxes, xmlName: string, lines: seq<string>, cellCounter: nat)

  /** Why the run stops at a well (the exception the script raises there). */
  datatype RunError =
    | MissingCancerFile(wellIndex: nat)                // `cancer_csv_files[well_index]`: IndexError
    | UnreadableFile(name: string)                     // `open` or `read_csv`: file not found
    | BadCancerCsv(name: string, error: CsvError)      // `next`, `split` or `int`

  /**
   * What the script has for well `wellIndex` with cancer ids `cancer` and mask `m`:
   * the scan result of the mask, the emit loop bounded by its `num_found_cells`,
   * and the file name of the well.
   */
  ghost predicate WellAnnotated(wellIndex: nat, cancer: set<int>, m: Mask, a: Annotation)
  {
    var b := a.boxes;
    ScanSpec(m, b) && WellFormed(b) && b.numFound <= MaxNumCells &&
    a.xmlName == XmlName(FilePrefix(wellIndex)) &&
    a.lines == Document(FilePrefix(wellIndex), b, cancer, b.numFound) &&
    a.cellCounter == |SelectedIds(b, cancer, 1, b.numFound)|
  }

  /** One well: read the cancer ids, scan the mask, write the annotation. */
  method AnnotateWell(wellIndex: nat, cancerLines: seq<string>, m: Mask) returns (r: Result<Annotation, CsvError>)
    requires ValidMask(m)
    ensures r.Failure? <==> CancerIds(cancerLines).Failure?
    ensures r.Failure? ==> r.error == CancerIds(cancerLines).error
    ensures r.Success? ==> WellAnnotated(wellIndex, CancerIds(cancerLines).value, m, r.value)
  {
    var parsed := ParseCancerIds(cancerLines);
    if parsed.Failure? {
      return Failure(parsed.error);
    }
    var b := ScanBoxes(m);
    NumFoundBound(m, b);
    var prefix := FilePrefix(wellIndex);
    var lines, cellCounter := WriteAnnotation(prefix, b, parsed.value, b.numFound);
    r := Success(Annotation(b, XmlName(prefix), lines, cellCounter));
  }

  /**
   * How well `j` ends, given the sorted listings and the files: the first exception
   * the script meets there, in the order it opens things, or `None`.
   */
  function WellError(j: nat, cellFiles: seq<string>, cancerFiles: seq<string>,
                     cancerCsvs: map<string, seq<string>>, masks: map<string, Mask>): Option<RunError>
  {
    if j >= |cancerFiles| then Some(MissingCancerFile(j))
    else if cancerFiles[j] !in cancerCsvs then Some(UnreadableFile(cancerFiles[j]))
    else if CancerIds(cancerCsvs[cancerFiles[j]]).Failure? then
      Some(BadCancerCsv(cancerFiles[j], CancerIds(cancerCsvs[cancerFiles[j]]).error))
    else if j >= |cellFiles| || cellFiles[j] !in masks then
      Some(UnreadableFile(if j < |cellFiles| then cellFiles[j] else ""))
    else None
  }

  /** Well `j` of the loop over the mask files, with the files opened in the script's order. */
  method RunWell(j: nat, cellFiles: seq<string>, cancerFiles: seq<string>,
                 cancerCsvs: map<string, seq<string>>, masks: map<string, Mask>)
    returns (r: Result<Annotation, RunError>)
    requires j < |cellFiles|
    requires forall name :: name in masks ==> ValidMask(masks[name])
    ensures r.Failure? <==> WellError(j, cellFiles, cancerFiles, cancerCsvs, masks).Some?
    ensures r.Failure? ==> WellError(j, cellFiles, cancerFiles, cancerCsvs, masks) == Some(r.error)
    ensures r.Success? ==> Annotated(j, cellFiles, cancerFiles, cancerCsvs, masks, r.value)
  {
    if j >= |cancerFiles| {
      return Failure(MissingCancerFile(j));
    }
    if cancerFiles[j] !in cancerCsvs {
      return Failure(UnreadableFile(cancerFiles[j]));
    }
    var cancerLines := cancerCsvs[cancerFiles[j]];
    if cellFiles[j] !in masks {
      var parsed := ParseCancerIds(cancerLines);
      if parsed.Failure? {
        return Failure(BadCancerCsv(cancerFiles[j], parsed.error));
      }
      return Failure(UnreadableFile(cellFiles[j]));
    }
    var a := AnnotateWell(j, cancerLines, masks[cellFiles[j]]);
    if a.Failure? {
      return Failure(BadCancerCsv(cancerFiles[j], a.error));
    }
    r := Success(a.value);
  }

  /** Well `k` went through and `a` is what the script wrote for it. */
  ghost predicate Annotated(k: nat, cellFiles: seq<string>, cancerFiles: seq<string>,
                            cancerCsvs: map<string, seq<string>>, masks: map<string, Mask>, a: Annotation)
  {
    WellError(k, cellFiles, cancerFiles, cancerCsvs, masks).None? &&
    WellAnnotated(k, CancerIds(cancerCsvs[cancerFiles[k]]).value, masks[cellFiles[k]], a)
  }

  /** The first `n` annotations are those of wells `0 .. n-1`. */
  ghost predicate AnnotatedUpTo(n: nat, written: seq<Annotation>, cellFiles: seq<string>, cancerFiles: seq<string>,
                                cancerCsvs: map<string, seq<string>>, masks: map<string, Mask>)
    requires n <= |written|
  {
    n == 0 ||
    (AnnotatedUpTo(n - 1, written, cellFiles, cancerFiles, cancerCsvs, masks) &&
     Annotated(n - 1, cellFiles, cancerFiles, cancerCsvs, masks, written[n - 1]))
  }

  lemma {:induction false} AnnotatedUpToPrefix(n: nat, written: seq<Annotation>, a: Annotation,
                                               cellFiles: seq<string>, cancerFiles: seq<string>,
                                               cancerCsvs: map<string, seq<string>>, masks: map<string, Mask>)
    requires n <= |written|
    requires AnnotatedUpTo(n, written, cellFiles, cancerFiles, cancerCsvs, masks)
    ensures AnnotatedUpTo(n, written + [a], cellFiles, cancerFiles, cancerCsvs, masks)
  {
    if n > 0 {
      AnnotatedUpToPrefix(n - 1, written, a, cellFiles, cancerFiles, cancerCsvs, masks);
      assert (written + [a])[n - 1] == written[n - 1];
    }
  }

  lemma {:induction false} AnnotatedUpToAll(n: nat, written: seq<Annotation>,
                                            cellFiles: seq<string>, cancerFiles: seq<string>,
                                            cancerCsvs: map<string, seq<string>>, masks: map<string, Mask>)
    requires n <= |written|
    requires AnnotatedUpTo(n, written, cellFiles, cancerFiles, cancerCsvs, masks)
    ensures forall k :: 0 <= k < n ==> Annotated(k, cellFiles, cancerFiles, cancerCsvs, masks, written[k])
  {
    if n > 0 {
      AnnotatedUpToAll(n - 1, written, cellFiles, cancerFiles, cancerCsvs, masks);
      forall k | 0 <= k < n
        ensures Annotated(k, cellFiles, cancerFiles, cancerCsvs, masks, written[k])
      {
        if k == n - 1 {
          assert Annotated(n - 1, cellFiles, cancerFiles, cancerCsvs, masks, written[n - 1]);
        }
      }
    }
  }

  /**
   * The loop over the wells: one annotation per mask file, in listing order, until
   * the first well that fails; the failure, if any, is that well's error.
   */
  method AnnotateWells(cellFiles: seq<string>, cancerFiles: seq<string>,
                       cancerCsvs: map<string, seq<string>>, masks: map<string, Mask>)
    returns (written: seq<Annotation>, failure: Option<RunError>)
    requires forall name :: name in masks ==> ValidMask(masks[name])
    ensures |written| <= |cellFiles|
    ensures forall k :: 0 <= k < |written| ==> Annotated(k, cellFiles, cancerFiles, cancerCsvs, masks, written[k])
    ensures failure.None? <==> |written| == |cellFiles|
    ensures failure.Some? ==> failure == WellError(|written|, cellFiles, cancerFiles, cancerCsvs, masks)
  {
    written := [];
    failure := None;
    var i := 0;
    while i < |cellFiles|
      invariant 0 <= i <= |cellFiles| && |written| == i
      invariant AnnotatedUpTo(i, written, cellFiles, cancerFiles, cancerCsvs, masks)
    {
      var r := RunWell(i, cellFiles, cancerFiles, cancerCsvs, masks);
      if r.Failure? {
        failure := Some(r.error);
        AnnotatedUpToAll(i, written, cellFiles, cancerFiles, cancerCsvs, masks);
        return;
      }
      AnnotatedUpToPrefix(i, written, r.value, cellFiles, cancerFiles, cancerCsvs, masks);
      written := written + [r.value];
      i := i + 1;
    }
    AnnotatedUpToAll(i, written, cellFiles, cancerFiles, cancerCsvs, masks);
  }

  /** The whole run of the script: clean and sort both listings, then annotate the wells. */
  method AnnotateAll(cellListing: seq<string>, cancerListing: seq<string>,
                     cancerCsvs: map<string, seq<string>>, masks: map<string, Mask>)
    returns (cellFiles: seq<string>, cancerFiles: seq<string>, written: seq<Annotation>, failure: Option<RunError>)
    requires forall name :: name in masks ==> ValidMask(masks[name])
    ensures IsSorted(cellFiles) && multiset(cellFiles) == multiset(cellListing) - multiset{DsStore}
    ensures IsSorted(cancerFiles) && multiset(cancerFiles) == multiset(cancerListing) - multiset{DsStore}
    ensures |written| <= |cellFiles|
    ensures forall k :: 0 <= k < |written| ==> Annotated(k, cellFiles, cancerFiles, cancerCsvs, masks, written[k])
    ensures failure.None? <==> |written| == |cellFiles|
    ensures failure.Some? ==> failure == WellError(|written|, cellFiles, cancerFiles, cancerCsvs, masks)
  {
    cellFiles := CleanAndSortFolderList(cellListing);
    cancerFiles := CleanAndSortFolderList(cancerListing);
    written, failure := AnnotateWells(cellFiles, cancerFiles, cancerCsvs, masks);
  }
}
