/**
 * Reading the cancer-positive cell list: the first line is a header, every later
 * line is stripped and split on `,` into exactly two fields, and the first field,
 * read as an integer, becomes a key of the lookup table.
 */
module CancerCsv {
  import opened Wrappers
  import opened Text

  /** Why one data line is rejected (both are `ValueError`s in the script). */
  datatype LineError =
    | WrongFieldCount(fields: nat)
    | NotAnInteger(field: string)

  datatype CsvError =
    | MissingHeader                         // `next(f)` on an empty file
    | BadLine(index: nat, reason: LineError) // `index` counts from 0, header included

  /** `cancer_cell_num, _ = line.strip().split(',')` followed by `int(cancer_cell_num)`. */
  function ParseLine(line: string): Result<int, LineError>
  {
    var fields := Split(Strip(line), ',');
    if |fields| != 2 then Failure(WrongFieldCount(|fields|))
    else
      match ParseInt(fields[0])
      case None => Failure(NotAnInteger(fields[0]))
      case Some(k) => Success(k)
  }

  /**
   * A line is accepted exactly when its stripped text holds one comma and the text
   * before it reads as an integer, which is then the id; a rejected line names the
   * field count that is not two, or the first field that is not an integer. The
   * other direction of acceptance is `ParseLineAccepts`.
   */
  lemma ParseLineSpec(line: string)
    ensures ParseLine(line).Success? ==>
      exists f, g :: Strip(line) == f + "," + g && ',' !in f && ',' !in g && ParseInt(f) == Some(ParseLine(line).value)
    ensures ParseLine(line).Failure? && ParseLine(line).error.WrongFieldCount? ==>
      ParseLine(line).error.fields == Occurrences(Strip(line), ',') + 1 != 2
    ensures ParseLine(line).Failure? && ParseLine(line).error.NotAnInteger? ==>
      Occurrences(Strip(line), ',') == 1 && ParseInt(ParseLine(line).error.field) == None &&
      ',' !in ParseLine(line).error.field &&
      exists g :: Strip(line) == ParseLine(line).error.field + "," + g
  {
    var fields := Split(Strip(line), ',');
    SplitSpec(Strip(line), ',');
    if |fields| == 2 {
      assert [fields[0]] + [fields[1]] == fields;
      assert Join(fields, ',') == fields[0] + "," + fields[1];
    }
  }

  /**
   * The converse of the acceptance clause above: a line whose stripped text is two
   * comma-free fields around one comma, the first an integer, is accepted with that
   * integer.
   */
  lemma ParseLineAccepts(line: string, f: string, g: string)
    requires Strip(line) == f + "," + g && ',' !in f && ',' !in g && ParseInt(f).Some?
    ensures ParseLine(line) == Success(ParseInt(f).value)
  {
    SplitPrefix(f, g, ',');
    SplitSeparatorFree(g, ',');
  }

  /**
   * A row written as `<id>,<rest>` is read back as that id, whatever whitespace `rest`
   * ends with (a line from the file keeps its newline).
   */
  lemma ParseLineOfRow(id: int, rest: string)
    requires ',' !in rest
    ensures ParseLine(IntToString(id) + "," + rest) == Success(id)
  {
    var f := IntToString(id);
    var line := f + "," + rest;
    ParseIntOfIntToString(id);
    NatToStringShape(if id < 0 then -id else id);
    assert !IsSpace(line[0]) by {
      var d := NatToString(if id < 0 then -id else id);
      assert IsDigit(d[0]);
      if id < 0 { assert line[0] == '-'; } else { assert line[0] == d[0]; }
    }
    assert StripStart(line) == line;
    assert line == (f + ",") + rest;
    StripEndAppend(f + ",", rest);
    StripEndSpec(rest);
    var g := StripEnd(rest);
    assert Strip(line) == f + "," + g;
    assert ',' !in g by {
      assert g == rest[..|g|];
    }
    assert ',' !in f by {
      var d := NatToString(if id < 0 then -id else id);
      assert forall k :: 0 <= k < |d| ==> IsDigit(d[k]);
    }
    ParseLineAccepts(line, f, g);
  }

  /** The newline-terminated row `5,x` is read back as 5. */
  lemma ParseLineOfNewlineRow()
    ensures ParseLine("5,x\n") == Success(5)
  {
    assert IntToString(5) == "5";
    ParseLineOfRow(5, "x\n");
  }

  /** Each line of the file, parsed on its own. */
  function ParsedLines(lines: seq<string>): seq<Result<int, LineError>>
  {
    seq(|lines|, j requires 0 <= j < |lines| => ParseLine(lines[j]))
  }

  /**
   * The outcome of reading data lines `1 .. hi - 1` in order, given each line's own
   * result: the set of their ids, or the error of the first line that does not parse.
   */
  function ReadRows(rs: seq<Result<int, LineError>>, hi: nat): Result<set<int>, CsvError>
    requires 1 <= hi <= |rs|
  {
    if hi == 1 then Success({})
    else
      match ReadRows(rs, hi - 1)
      case Failure(e) => Failure(e)
      case Success(ids) =>
        match rs[hi - 1]
        case Failure(e) => Failure(BadLine(hi - 1, e))
        case Success(k) => Success(ids + {k})
  }

  /** The table built from a whole file: the header must be there, then every data line. */
  function CancerIds(lines: seq<string>): Result<set<int>, CsvError>
  {
    if |lines| == 0 then Failure(MissingHeader) else ReadRows(ParsedLines(lines), |lines|)
  }

  /** Once a line has failed, reading further lines keeps that failure. */
  lemma {:induction false} ReadRowsFailureStays(rs: seq<Result<int, LineError>>, lo: nat, hi: nat)
    requires 1 <= lo <= hi <= |rs|
    requires ReadRows(rs, lo).Failure?
    ensures ReadRows(rs, hi) == ReadRows(rs, lo)
  {
    if lo < hi {
      ReadRowsFailureStays(rs, lo, hi - 1);
    }
  }

  /**
   * Reading lines `1 .. hi - 1` succeeds exactly when each of them parses; its keys
   * are then exactly their ids; otherwise the error names the first line that fails.
   */
  lemma {:induction false} ReadRowsSpec(rs: seq<Result<int, LineError>>, hi: nat)
    requires 1 <= hi <= |rs|
    ensures ReadRows(rs, hi).Success? <==> forall j :: 1 <= j < hi ==> rs[j].Success?
    ensures ReadRows(rs, hi).Success? ==>
      forall k :: k in ReadRows(rs, hi).value <==> exists j :: 1 <= j < hi && rs[j] == Success(k)
    ensures ReadRows(rs, hi).Failure? ==>
      var e := ReadRows(rs, hi).error;
      e.BadLine? && 1 <= e.index < hi && rs[e.index] == Failure(e.reason) &&
      forall j :: 1 <= j < e.index ==> rs[j].Success?
  {
    if hi > 1 {
      ReadRowsSpec(rs, hi - 1);
    }
  }

  /**
   * The whole file: an empty file has no header to skip; otherwise the table holds
   * exactly the ids of the lines after the header when all of them parse, and the
   * error otherwise names the first line after the header that does not.
   */
  lemma CancerIdsSpec(lines: seq<string>)
    ensures |lines| == 0 <==> CancerIds(lines) == Failure(MissingHeader)
    ensures CancerIds(lines).Success? <==>
      |lines| > 0 && forall j :: 1 <= j < |lines| ==> ParseLine(lines[j]).Success?
    ensures CancerIds(lines).Success? ==>
      forall k :: k in CancerIds(lines).value <==> exists j :: 1 <= j < |lines| && ParseLine(lines[j]) == Success(k)
    ensures CancerIds(lines).Failure? && |lines| > 0 ==>
      var e := CancerIds(lines).error;
      e.BadLine? && 1 <= e.index < |lines| && ParseLine(lines[e.index]) == Failure(e.reason) &&
      forall j :: 1 <= j < e.index ==> ParseLine(lines[j]).Success?
  {
    if |lines| > 0 {
      var rs := ParsedLines(lines);
      assert forall j :: 0 <= j < |lines| ==> rs[j] == ParseLine(lines[j]);
      ReadRowsSpec(rs, |lines|);
    }
  }

  /**
   * The loop of the script that fills the lookup table: skip the header, then add
   * the id of each stripped and split line, stopping at the first line that fails.
   */
  method ParseCancerIds(lines: seq<string>) returns (r: Result<set<int>, CsvError>)
    ensures r == CancerIds(lines)
  {
    if |lines| == 0 {
      return Failure(MissingHeader);
    }
    r := ReadTable(lines, ParsedLines(lines));
  }

  /** The loop over the data lines, given what each line parses to. */
  method ReadTable(lines: seq<string>, ghost rs: seq<Result<int, LineError>>)
    returns (r: Result<set<int>, CsvError>)
    requires 1 <= |lines| == |rs|
    requires forall j {:trigger ParseLine(lines[j])} :: 0 <= j < |lines| ==> rs[j] == ParseLine(lines[j])
    ensures r == ReadRows(rs, |lines|)
  {
    var cancerPositive: set<int> := {};
    var i := 1;
    while i < |lines|
      invariant 1 <= i <= |lines|
      invariant ReadRows(rs, i) == Success(cancerPositive)
    {
      var parsed := ParseLine(lines[i]);
      if parsed.Failure? {
        ReadRowsFailureStays(rs, i + 1, |lines|);
        return Failure(BadLine(i, parsed.error));
      }
      cancerPositive := cancerPositive + {parsed.value};
      i := i + 1;
    }
    r := Success(cancerPositive);
  }
}
