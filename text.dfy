/**
 * The string operations of Python's `str` that the annotation generator relies on:
 * `strip()`, `split(sep)`, `str()` of an integer and `int()` of a string.
 *
 * The functions are plain recursive definitions; what each of them guarantees is
 * stated and proved in the lemma that follows it.
 */
module Text {
  import opened Wrappers

  /** Python's `str.isspace()` for one character: the characters `strip()` removes. */
  predicate IsSpace(c: char)
  {
    ('\U{9}' <= c <= '\U{d}') || ('\U{1c}' <= c <= '\U{20}') ||
    c == '\U{85}' || c == '\U{a0}' || c == '\U{1680}' ||
    ('\U{2000}' <= c <= '\U{200a}') ||
    c == '\U{2028}' || c == '\U{2029}' || c == '\U{202f}' || c == '\U{205f}' || c == '\U{3000}'
  }

  ghost predicate AllSpace(s: string)
  {
    forall k :: 0 <= k < |s| ==> IsSpace(s[k])
  }

  /** `s` without its leading whitespace. */
  function StripStart(s: string): string
  {
    if |s| > 0 && IsSpace(s[0]) then StripStart(s[1..]) else s
  }

  /** `s` without its trailing whitespace. */
  function StripEnd(s: string): string
  {
    if |s| > 0 && IsSpace(s[|s| - 1]) then StripEnd(s[..|s| - 1]) else s
  }

  /** Python's `s.strip()`; `StripSlice` says what it keeps. */
  function Strip(s: string): string
  {
    StripEnd(StripStart(s))
  }

  /** The leading-whitespace cut leaves the longest suffix that starts with a non-space. */
  lemma {:induction false} StripStartSpec(s: string)
    ensures var r := StripStart(s);
      |r| <= |s| && r == s[|s| - |r|..] && AllSpace(s[..|s| - |r|]) && (r == [] || !IsSpace(r[0]))
  {
    if |s| > 0 && IsSpace(s[0]) {
      StripStartSpec(s[1..]);
      var r := StripStart(s[1..]);
      assert s[1..][..|s[1..]| - |r|] == s[1..|s| - |r|];
    }
  }

  /** The trailing-whitespace cut leaves the longest prefix that ends with a non-space. */
  lemma {:induction false} StripEndSpec(s: string)
    ensures var r := StripEnd(s);
      |r| <= |s| && r == s[..|r|] && AllSpace(s[|r|..]) && (r == [] || !IsSpace(r[|r| - 1]))
  {
    if |s| > 0 && IsSpace(s[|s| - 1]) {
      StripEndSpec(s[..|s| - 1]);
      var r := StripEnd(s[..|s| - 1]);
      assert s[..|s| - 1][|r|..] + [s[|s| - 1]] == s[|r|..];
    }
  }

  /**
   * `strip()` keeps a contiguous slice of `s`, removing only whitespace, and as
   * much of it as possible from both ends.
   */
  lemma StripSlice(s: string)
    ensures exists i, j :: 0 <= i <= j <= |s| && Strip(s) == s[i..j] && AllSpace(s[..i]) && AllSpace(s[j..])
    ensures var r := Strip(s); r == [] || (!IsSpace(r[0]) && !IsSpace(r[|r| - 1]))
  {
    var t := StripStart(s);
    StripStartSpec(s);
    StripEndSpec(t);
    var r := StripEnd(t);
    var i := |s| - |t|;
    assert r == s[i..i + |r|] && s[i + |r|..] == t[|r|..];
  }

  /** A string with no whitespace at either end is its own `strip()`. */
  lemma StripKeeps(s: string)
    requires |s| > 0 && !IsSpace(s[0]) && !IsSpace(s[|s| - 1])
    ensures Strip(s) == s
  {
    assert StripStart(s) == s;
    assert StripEnd(s) == s;
  }

  /** Trailing whitespace is cut behind a part that ends in a non-space, never into it. */
  lemma {:induction false} StripEndAppend(p: string, q: string)
    requires |p| > 0 && !IsSpace(p[|p| - 1])
    ensures StripEnd(p + q) == p + StripEnd(q)
    decreases |q|
  {
    if |q| > 0 && IsSpace(q[|q| - 1]) {
      assert (p + q)[..|p + q| - 1] == p + q[..|q| - 1];
      StripEndAppend(p, q[..|q| - 1]);
    } else if |q| == 0 {
      assert p + q == p;
    }
  }

  /** The number of occurrences of `c` in `s`. */
  function Occurrences(s: string, c: char): nat
  {
    if s == [] then 0 else (if s[0] == c then 1 else 0) + Occurrences(s[1..], c)
  }

  /** The fields glued back together with the separator between each pair. */
  function Join(fields: seq<string>, sep: char): string
    requires |fields| >= 1
  {
    if |fields| == 1 then fields[0] else fields[0] + [sep] + Join(fields[1..], sep)
  }

  /** Python's `s.split(sep)` for a one-character separator; `SplitSpec` says what it gives. */
  function Split(s: string, sep: char): (r: seq<string>)
    ensures |r| >= 1
  {
    if s == [] then [""]
    else
      var rest := Split(s[1..], sep);
      if s[0] == sep then [""] + rest
      else [[s[0]] + rest[0]] + rest[1..]
  }

  /**
   * `split(sep)` gives one more piece than there are separators, none of the
   * pieces holds `sep`, and joining them back with `sep` gives `s`.
   */
  lemma {:induction false} SplitSpec(s: string, sep: char)
    ensures var fields := Split(s, sep);
      |fields| == Occurrences(s, sep) + 1 &&
      (forall k :: 0 <= k < |fields| ==> sep !in fields[k]) &&
      Join(fields, sep) == s
  {
    if s != [] {
      SplitSpec(s[1..], sep);
      var rest := Split(s[1..], sep);
      var fields := Split(s, sep);
      assert [s[0]] + s[1..] == s;
      if s[0] != sep {
        assert fields[1..] == rest[1..];
        assert Join(fields, sep) == [s[0]] + Join(rest, sep);
      }
    }
  }

  /** Splitting a join of separator-free fields gives back the fields. */
  lemma {:induction false} SplitJoin(fields: seq<string>, sep: char)
    requires |fields| >= 1
    requires forall k :: 0 <= k < |fields| ==> sep !in fields[k]
    ensures Split(Join(fields, sep), sep) == fields
  {
    var f := fields[0];
    if |fields| == 1 {
      SplitSeparatorFree(f, sep);
    } else {
      SplitJoin(fields[1..], sep);
      SplitPrefix(f, Join(fields[1..], sep), sep);
      assert [f] + fields[1..] == fields;
    }
  }

  /** A piece without the separator is not split. */
  lemma {:induction false} SplitSeparatorFree(s: string, sep: char)
    requires sep !in s
    ensures Split(s, sep) == [s]
  {
    if s != [] {
      SplitSeparatorFree(s[1..], sep);
      assert [s[0]] + s[1..] == s;
    }
  }

  /** A separator-free piece followed by the separator opens the field list. */
  lemma {:induction false} SplitPrefix(f: string, rest: string, sep: char)
    requires sep !in f
    ensures Split(f + [sep] + rest, sep) == [f] + Split(rest, sep)
  {
    var s := f + [sep] + rest;
    if f == [] {
      assert s == [sep] + rest;
      assert s[1..] == rest;
    } else {
      assert s[1..] == f[1..] + [sep] + rest;
      SplitPrefix(f[1..], rest, sep);
      assert [f[0]] + f[1..] == f;
    }
  }

  predicate IsDigit(c: char)
  {
    '0' <= c <= '9'
  }

  function DigitChar(d: nat): char
    requires d < 10
  {
    (d + '0' as int) as char
  }

  function DigitValue(c: char): nat
    requires IsDigit(c)
  {
    c as int - '0' as int
  }

  /** Python's `str(n)` for a natural number: its decimal numeral. */
  function NatToString(n: nat): (r: string)
    ensures |r| >= 1
  {
    if n < 10 then [DigitChar(n)] else NatToString(n / 10) + [DigitChar(n % 10)]
  }

  /** `str(n)` is made of digits only and has no leading zero; one digit exactly below ten. */
  lemma {:induction false} NatToStringShape(n: nat)
    ensures var r := NatToString(n);
      (forall k :: 0 <= k < |r| ==> IsDigit(r[k])) && (|r| > 1 ==> r[0] != '0') && (n < 10 <==> |r| == 1)
  {
    if n >= 10 {
      NatToStringShape(n / 10);
      assert NatToString(n)[0] == NatToString(n / 10)[0];
    }
  }

  /** Python's `str(i)` for any integer: a minus sign before the numeral of a negative value. */
  function IntToString(i: int): string
  {
    if i < 0 then "-" + NatToString(-i) else NatToString(i)
  }

  /** A non-empty run of decimal digits and its value; `None` for anything else. */
  function ParseDigits(s: string): Option<nat>
  {
    if |s| == 0 || !IsDigit(s[|s| - 1]) then None
    else if |s| == 1 then Some(DigitValue(s[0]))
    else
      match ParseDigits(s[..|s| - 1])
      case None => None
      case Some(v) => Some(v * 10 + DigitValue(s[|s| - 1]))
  }

  /** Digits are accepted exactly when the string is a non-empty run of decimal digits. */
  lemma {:induction false} ParseDigitsAccepts(s: string)
    ensures ParseDigits(s).Some? <==> |s| > 0 && forall k :: 0 <= k < |s| ==> IsDigit(s[k])
  {
    if |s| > 1 {
      ParseDigitsAccepts(s[..|s| - 1]);
      if ParseDigits(s[..|s| - 1]).None? && IsDigit(s[|s| - 1]) {
        var k :| 0 <= k < |s| - 1 && !IsDigit(s[..|s| - 1][k]);
        assert !IsDigit(s[k]);
      }
    }
  }

  /** The numeral of `n` reads back as `n`. */
  lemma {:induction false} ParseDigitsOfNatToString(n: nat)
    ensures ParseDigits(NatToString(n)) == Some(n)
  {
    if n >= 10 {
      ParseDigitsOfNatToString(n / 10);
      var s := NatToString(n);
      assert s[..|s| - 1] == NatToString(n / 10);
    }
  }

  /** Equal numerals come from equal numbers. */
  lemma NatToStringInjective(a: nat, b: nat)
    requires NatToString(a) == NatToString(b)
    ensures a == b
  {
    ParseDigitsOfNatToString(a);
    ParseDigitsOfNatToString(b);
  }

  /**
   * Python's `int(s)` on a string, as far as success is concerned: surrounding
   * whitespace is ignored, an optional sign, then one or more decimal digits.
   */
  function ParseInt(s: string): Option<int>
  {
    var t := Strip(s);
    if |t| > 0 && (t[0] == '-' || t[0] == '+') then
      match ParseDigits(t[1..])
      case None => None
      case Some(v) => Some(if t[0] == '-' then -(v as int) else v)
    else ParseDigits(t)
  }

  /** `int(str(i)) == i`: the numeral of every integer reads back as that integer. */
  lemma ParseIntOfIntToString(i: int)
    ensures ParseInt(IntToString(i)) == Some(i)
  {
    var s := IntToString(i);
    var n := if i < 0 then -i else i;
    ParseDigitsOfNatToString(n);
    NatToStringShape(n);
    var d := NatToString(n);
    assert !IsSpace(d[|d| - 1]) by { assert IsDigit(d[|d| - 1]); }
    if i < 0 {
      assert s == "-" + d && s[1..] == d;
      StripKeeps(s);
    } else {
      assert !IsSpace(d[0]) by { assert IsDigit(d[0]); }
      StripKeeps(d);
    }
  }
}
