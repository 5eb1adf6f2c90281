/**
 * The names the script gives a well's output: the file prefix `Cancer_W<nn>`, the
 * annotation file `<prefix>_1.xml` and the image `<prefix>_6.jpg` it annotates.
 */
module Naming {
  import opened Wrappers
  import opened Text

  /** The prefix of well `wellIndex` (counted from 0): its number from 1, padded to two digits. */
  function FilePrefix(wellIndex: nat): string
  {
    if wellIndex < 9 then "Cancer_W0" + NatToString(wellIndex + 1)
    else "Cancer_W" + NatToString(wellIndex + 1)
  }

  function XmlName(prefix: string): string
  {
    prefix + "_1.xml"
  }

  function ImageName(prefix: string): string
  {
    prefix + "_6.jpg"
  }

  /**
   * The prefix is `Cancer_W` followed by the well's number from 1, which reads back
   * as that number; a leading zero pads exactly the wells numbered 1 to 9.
   */
  lemma FilePrefixNumber(wellIndex: nat)
    ensures var p := FilePrefix(wellIndex);
      |p| >= 10 && p[..8] == "Cancer_W" && ParseInt(p[8..]) == Some(wellIndex + 1)
    ensures wellIndex < 9 <==> FilePrefix(wellIndex)[8] == '0'
  {
    var p := FilePrefix(wellIndex);
    var d := NatToString(wellIndex + 1);
    NatToStringShape(wellIndex + 1);
    ParseIntOfIntToString(wellIndex + 1);
    if wellIndex < 9 {
      assert p == "Cancer_W0" + d && p[8..] == "0" + d;
      assert |d| == 1 && IsDigit(d[0]);
      var t := p[8..];
      assert !IsSpace(t[0]) && !IsSpace(t[|t| - 1]);
      StripKeeps(t);
      assert t[..|t| - 1] == "0";
      assert ParseDigits(t) == Some(DigitValue(d[0]));
      assert ParseDigits(d) == Some(DigitValue(d[0]));
      StripKeeps(d);
    } else {
      assert p == "Cancer_W" + d && p[8..] == d;
      assert |d| > 1;
    }
  }

  /** Different wells get different prefixes. */
  lemma FilePrefixInjective(i: nat, j: nat)
    requires FilePrefix(i) == FilePrefix(j)
    ensures i == j
  {
    FilePrefixNumber(i);
    FilePrefixNumber(j);
  }

  /** Different wells write different annotation files. */
  lemma XmlNameInjective(i: nat, j: nat)
    requires XmlName(FilePrefix(i)) == XmlName(FilePrefix(j))
    ensures i == j
  {
    var a, b := XmlName(FilePrefix(i)), XmlName(FilePrefix(j));
    assert a[..|a| - 6] == FilePrefix(i);
    assert b[..|b| - 6] == FilePrefix(j);
    FilePrefixInjective(i, j);
  }
}
