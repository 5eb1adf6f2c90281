/**
 * `clean_and_sort_folder_list`: the directory listing without one `.DS_Store`
 * entry, sorted the way Python sorts strings (code point by code point).
 */
module Folders {

  const DsStore: string := ".DS_Store"

  /** Python's `<=` on `str`: lexicographic order on code points, a prefix first. */
  predicate StrLe(a: string, b: string)
  {
    if |a| == 0 then true
    else if |b| == 0 then false
    else if a[0] != b[0] then a[0] < b[0]
    else StrLe(a[1..], b[1..])
  }

  lemma {:induction false} StrLeTotal(a: string, b: string)
    ensures StrLe(a, b) || StrLe(b, a)
  {
    if |a| > 0 && |b| > 0 && a[0] == b[0] {
      StrLeTotal(a[1..], b[1..]);
    }
  }

  lemma {:induction false} StrLeTransitive(a: string, b: string, c: string)
    requires StrLe(a, b) && StrLe(b, c)
    ensures StrLe(a, c)
  {
    if |a| > 0 && |b| > 0 && |c| > 0 && a[0] == b[0] && b[0] == c[0] {
      StrLeTransitive(a[1..], b[1..], c[1..]);
    }
  }

  lemma {:induction false} StrLeAntisymmetric(a: string, b: string)
    requires StrLe(a, b) && StrLe(b, a)
    ensures a == b
  {
    if |a| > 0 && |b| > 0 {
      StrLeAntisymmetric(a[1..], b[1..]);
      assert a == [a[0]] + a[1..] && b == [b[0]] + b[1..];
    }
  }

  ghost predicate IsSorted(s: seq<string>)
  {
    forall i, j :: 0 <= i < j < |s| ==> StrLe(s[i], s[j])
  }

  /** The position of the first occurrence of `x` in `s`. */
  function FirstIndex(s: seq<string>, x: string): (i: nat)
    requires x in s
    ensures i < |s| && s[i] == x && x !in s[..i]
  {
    if s[0] == x then 0
    else
      var i := FirstIndex(s[1..], x);
      assert s[..i + 1] == [s[0]] + s[1..][..i];
      i + 1
  }

  /**
   * Python's `list.remove(x)` when `x` is present, and no change when it is not:
   * exactly one copy of `x` leaves the multiset, and it is the first one.
   */
  function RemoveFirst(s: seq<string>, x: string): (r: seq<string>)
    ensures multiset(r) == multiset(s) - multiset{x}
    ensures x !in s ==> r == s
    ensures x in s ==> exists i :: 0 <= i < |s| && s[i] == x && x !in s[..i] && r == s[..i] + s[i + 1..]
  {
    if x in s then
      var i := FirstIndex(s, x);
      assert s == s[..i] + [x] + s[i + 1..];
      s[..i] + s[i + 1..]
    else s
  }

  /** Inserting into a sorted list keeps it sorted and adds exactly that element. */
  function Insert(s: seq<string>, x: string): (r: seq<string>)
    requires IsSorted(s)
    ensures IsSorted(r)
    ensures multiset(r) == multiset(s) + multiset{x}
  {
    if s == [] then [x]
    else if StrLe(x, s[0]) then
      assert forall j :: 0 <= j < |s| ==> StrLe(x, s[j]) by {
        forall j | 0 <= j < |s| ensures StrLe(x, s[j]) {
          if j > 0 { StrLeTransitive(x, s[0], s[j]); }
        }
      }
      [x] + s
    else
      StrLeTotal(x, s[0]);
      var rest := Insert(s[1..], x);
      assert s == [s[0]] + s[1..];
      forall k | 0 <= k < |rest| ensures StrLe(s[0], rest[k]) {
        assert rest[k] in multiset(rest);
        if rest[k] != x {
          assert rest[k] in multiset(s[1..]);
          var j :| 0 <= j < |s[1..]| && s[1..][j] == rest[k];
          assert s[j + 1] == rest[k];
        }
      }
      [s[0]] + rest
  }

  /** Python's `list.sort()` on a list of file names, by insertion. */
  method SortFileList(fileList: seq<string>) returns (files: seq<string>)
    ensures IsSorted(files)
    ensures multiset(files) == multiset(fileList)
  {
    files := [];
    var i := 0;
    while i < |fileList|
      invariant 0 <= i <= |fileList|
      invariant IsSorted(files)
      invariant multiset(files) == multiset(fileList[..i])
    {
      assert fileList[..i + 1] == fileList[..i] + [fileList[i]];
      files := Insert(files, fileList[i]);
      i := i + 1;
    }
    assert fileList[..i] == fileList;
  }

  /**
   * `clean_and_sort_folder_list` on a listing already read from the directory:
   * drop `.DS_Store` if it is there, then sort the rest.
   */
  method CleanAndSortFolderList(listing: seq<string>) returns (files: seq<string>)
    ensures IsSorted(files)
    ensures multiset(files) == multiset(listing) - multiset{DsStore}
  {
    var fileList := listing;
    if DsStore in fileList {
      fileList := RemoveFirst(fileList, DsStore);
    } else {
      assert multiset(fileList)[DsStore] == 0;
      assert multiset(fileList) == multiset(listing) - multiset{DsStore};
    }
    files := SortFileList(fileList);
  }

  /**
   * A sorted arrangement of a multiset of strings is unique, so the list above
   * is exactly what Python's `list.sort()` produces.
   */
  lemma {:induction false} SortedPermutationUnique(a: seq<string>, b: seq<string>)
    requires IsSorted(a) && IsSorted(b)
    requires multiset(a) == multiset(b)
    ensures a == b
  {
    if a != [] {
      assert |b| == |multiset(b)| == |a|;
      SortedHeadsEqual(a, b);
      assert a == [a[0]] + a[1..] && b == [b[0]] + b[1..];
      assert multiset(a[1..]) == multiset(a) - multiset{a[0]};
      assert multiset(b[1..]) == multiset(b) - multiset{a[0]};
      SortedPermutationUnique(a[1..], b[1..]);
    }
  }

  lemma SortedHeadsEqual(a: seq<string>, b: seq<string>)
    requires IsSorted(a) && IsSorted(b)
    requires multiset(a) == multiset(b) && a != [] && b != []
    ensures a[0] == b[0]
  {
    assert a[0] in multiset(b) && b[0] in multiset(a);
    var i :| 0 <= i < |b| && b[i] == a[0];
    var j :| 0 <= j < |a| && a[j] == b[0];
    assert StrLe(b[0], a[0]) by { if i > 0 { assert StrLe(b[0], b[i]); } else { StrLeTotal(b[0], a[0]); } }
    assert StrLe(a[0], b[0]) by { if j > 0 { assert StrLe(a[0], a[j]); } else { StrLeTotal(a[0], b[0]); } }
    StrLeAntisymmetric(a[0], b[0]);
  }
}
