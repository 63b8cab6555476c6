/** The page list of a manga directory (MangaReader/MangaDirectoryManager.cs):
    the natural comparison of file names the pages are sorted with, and
    the lookups between page numbers and paths. Listing the directory is
    left out; names are strings. */
module DirectoryManager {
  import opened Util

  // ---------------------------------------------------------------------
  // commonPrefix

  /** The loop of `commonPrefix` from position `k` on. */
  function PrefixFrom(s1: string, s2: string, k: nat): (r: nat)
    requires k <= Min(|s1|, |s2|) && s1[..k] == s2[..k]
    ensures k <= r <= Min(|s1|, |s2|)
    ensures s1[..r] == s2[..r]
    ensures r == Min(|s1|, |s2|) || s1[r] != s2[r]
    decreases Min(|s1|, |s2|) - k
  {
    if k == Min(|s1|, |s2|) || s1[k] != s2[k] then k
    else
      assert s1[..k + 1] == s1[..k] + [s1[k]] && s2[..k + 1] == s2[..k] + [s2[k]];
      PrefixFrom(s1, s2, k + 1)
  }

  /** `commonPrefix`: the length of the longest common prefix. */
  function CommonPrefix(s1: string, s2: string): (r: nat)
    ensures r <= |s1| && r <= |s2| && s1[..r] == s2[..r]
    ensures r == |s1| || r == |s2| || s1[r] != s2[r]
  {
    PrefixFrom(s1, s2, 0)
  }

  /** No common prefix is longer, and the length does not depend on the
      order of the two names. */
  lemma CommonPrefixLongest(s1: string, s2: string, j: nat)
    requires j <= |s1| && j <= |s2| && s1[..j] == s2[..j]
    ensures j <= CommonPrefix(s1, s2)
  {
  }

  lemma CommonPrefixSymmetric(s1: string, s2: string)
    ensures CommonPrefix(s1, s2) == CommonPrefix(s2, s1)
  {
    CommonPrefixLongest(s1, s2, CommonPrefix(s2, s1));
    CommonPrefixLongest(s2, s1, CommonPrefix(s1, s2));
  }

  /** A name shares all of itself with itself. */
  lemma CommonPrefixSelf(s: string)
    ensures CommonPrefix(s, s) == |s|
  {
    CommonPrefixLongest(s, s, |s|);
  }

  // ---------------------------------------------------------------------
  // numericLength

  /** `Char.IsDigit`, on the ASCII decimal digits. */
  predicate IsDigit(c: char) { '0' <= c <= '9' }

  predicate AllDigits(s: string) { forall i :: 0 <= i < |s| ==> IsDigit(s[i]) }

  /** The loop of `numericLength` from position `k` on. `Char.IsDigit(s, i)`
      throws when `i` is past the end, so a string made only of digits
      (the empty string included) fails. */
  function DigitsFrom(s: string, k: nat): (r: Result<nat>)
    requires k <= |s| && AllDigits(s[..k])
    ensures r.Err? <==> AllDigits(s)
    ensures r.Err? ==> r.failure == IndexOutOfRange
    ensures r.Ok? ==> k <= r.value < |s| && AllDigits(s[..r.value]) && !IsDigit(s[r.value])
    decreases |s| - k
  {
    if k == |s| then
      assert s[..k] == s;
      Err(IndexOutOfRange)
    else if IsDigit(s[k]) then
      assert s[..k + 1] == s[..k] + [s[k]];
      DigitsFrom(s, k + 1)
    else
      assert !AllDigits(s) by {
        assert !IsDigit(s[k]);
      }
      Ok(k)
  }

  /** `numericLength`: the number of leading digits. */
  function NumericLength(s: string): (r: Result<nat>)
    ensures r.Err? <==> AllDigits(s)
    ensures r.Err? ==> r.failure == IndexOutOfRange
    ensures r.Ok? ==> r.value < |s| && AllDigits(s[..r.value]) && !IsDigit(s[r.value])
  {
    DigitsFrom(s, 0)
  }

  /** `int.Parse` of a string of decimal digits, without the 32-bit bound. */
  function DigitsValue(s: string): (v: nat)
    requires AllDigits(s)
  {
    if |s| == 0 then 0
    else
      assert AllDigits(s[..|s| - 1]);
      10 * DigitsValue(s[..|s| - 1]) + (s[|s| - 1] as int - '0' as int)
  }

  // ---------------------------------------------------------------------
  // CompareFiles

  /** `CompareFiles`: equal names compare equal; past their common prefix,
      two remainders that both start with digits compare by the difference
      of their leading numbers; otherwise the culture comparison `culture`
      of the remainders decides. The digit count throws on a remainder
      made only of digits. */
  function CompareFiles(name1: string, name2: string, culture: (string, string) -> int): (r: Result<int>)
    ensures name1 == name2 ==> r == Ok(0)
  {
    if name1 == name2 then Ok(0)
    else
      var prefix := CommonPrefix(name1, name2);
      var rest1 := name1[prefix..];
      var rest2 := name2[prefix..];
      var n1 :- NumericLength(rest1);
      var n2 :- NumericLength(rest2);
      if n1 > 0 && n2 > 0 then Ok(DigitsValue(rest1[..n1]) - DigitsValue(rest2[..n2]))
      else Ok(culture(rest1, rest2))
  }

  /** The leading number of a remainder, when it has one. */
  function LeadingNumber(s: string): Option<nat> {
    match NumericLength(s)
    case Ok(n) => if n > 0 then Some(DigitsValue(s[..n])) else None
    case Err(_) => None
  }

  /** What `CompareFiles` answers for two different names, stated on the
      remainders past their common prefix: a failure exactly when a
      remainder holds only digits, the difference of the leading numbers
      when both have one, the culture order otherwise. */
  lemma CompareFilesMeaning(name1: string, name2: string, culture: (string, string) -> int)
    requires name1 != name2
    ensures var rest1 := name1[CommonPrefix(name1, name2)..];
            var rest2 := name2[CommonPrefix(name1, name2)..];
      (CompareFiles(name1, name2, culture).Err? <==> AllDigits(rest1) || AllDigits(rest2)) &&
      (!AllDigits(rest1) && !AllDigits(rest2) ==>
        CompareFiles(name1, name2, culture) ==
          if LeadingNumber(rest1).Some? && LeadingNumber(rest2).Some?
          then Ok(LeadingNumber(rest1).value - LeadingNumber(rest2).value)
          else Ok(culture(rest1, rest2)))
  {
  }

  /** With an antisymmetric culture order, swapping the names negates the
      result, and one order fails exactly when the other does. */
  lemma CompareFilesAntisymmetric(name1: string, name2: string, culture: (string, string) -> int)
    requires forall a, b :: culture(a, b) == -culture(b, a)
    ensures CompareFiles(name1, name2, culture).Err? <==> CompareFiles(name2, name1, culture).Err?
    ensures CompareFiles(name1, name2, culture).Ok? ==>
      CompareFiles(name2, name1, culture).value == -CompareFiles(name1, name2, culture).value
  {
    CommonPrefixSymmetric(name1, name2);
  }

  /** A name that is a proper prefix of another leaves an empty remainder,
      and counting its digits reads past its end. */
  lemma CompareFilesPrefixFails(name: string, longer: string, culture: (string, string) -> int)
    requires |name| < |longer| && longer[..|name|] == name
    ensures CompareFiles(name, longer, culture).Err?
  {
    CommonPrefixLongest(name, longer, |name|);
    assert name[CommonPrefix(name, longer)..] == [];
  }

  /** Page 2 sorts before page 10: past the prefix "p", the numbers 2 and 10
      are compared, not the characters. */
  lemma NaturalOrderExample(culture: (string, string) -> int)
    ensures CompareFiles("p2.jpg", "p10.jpg", culture) == Ok(-8)
  {
    var a, b := "p2.jpg", "p10.jpg";
    assert a[..1] == b[..1];
    assert a[1] != b[1];
    assert CommonPrefix(a, b) == 1;
    var r1, r2 := a[1..], b[1..];
    assert r1 == "2.jpg" && r2 == "10.jpg";
    assert NumericLength(r1) == Ok(1) by {
      assert r1[..1] == "2";
      assert DigitsFrom(r1, 1) == Ok(1);
    }
    assert NumericLength(r2) == Ok(2) by {
      assert r2[..1] == "1" && r2[..2] == "10";
      assert DigitsFrom(r2, 2) == Ok(2);
    }
    assert r1[..1] == "2" && r2[..2] == "10";
    assert DigitsValue("1") == 1 by {
      assert "1"[..0] == "";
    }
    assert DigitsValue("2") == 2 by {
      assert "2"[..0] == "";
    }
    assert DigitsValue("10") == 10 by {
      assert "10"[..1] == "1";
    }
  }

  // ---------------------------------------------------------------------
  // Page lookups

  /** `GetPageIndex`: the first position of `path` in the page list, or -1. */
  function GetPageIndex(pages: seq<string>, path: string): (r: int)
    ensures r == -1 <==> path !in pages
    ensures r != -1 ==> 0 <= r < |pages| && pages[r] == path && path !in pages[..r]
  {
    if |pages| == 0 then -1
    else if pages[0] == path then 0
    else
      var r := GetPageIndex(pages[1..], path);
      assert pages == [pages[0]] + pages[1..];
      if r == -1 then -1
      else
        assert pages[..r + 1] == [pages[0]] + pages[1..][..r];
        r + 1
  }

  /** `GetPagePath`: the path of a page; the list indexer throws out of
      range. */
  function GetPagePath(pages: seq<string>, pageNumber: int): (r: Result<string>)
    ensures r.Ok? <==> 0 <= pageNumber < |pages|
    ensures r.Err? ==> r.failure == IndexOutOfRange
  {
    if 0 <= pageNumber < |pages| then Ok(pages[pageNumber]) else Err(IndexOutOfRange)
  }

  /** The two lookups invert each other: a listed path is found at a page
      whose path it is, and in a list without repeats every page is found
      at its own number. */
  lemma PageLookupsRoundTrip(pages: seq<string>, path: string, pageNumber: int)
    ensures path in pages ==> GetPagePath(pages, GetPageIndex(pages, path)) == Ok(path)
    ensures (forall i, j :: 0 <= i < j < |pages| ==> pages[i] != pages[j]) && 0 <= pageNumber < |pages| ==>
      GetPageIndex(pages, GetPagePath(pages, pageNumber).value) == pageNumber
  {
  }
}
