/**
 * The ESRI TIN driver's helpers around the sibling files: the TIN's name
 * from its path (`getTinName`), the coordinate system text of prj.adf
 * (`getCrsWkt`) and the superpoint indices of thul.adf (`readSuperpoints`).
 */
module EsriTinFiles {
  import opened Wrappers
  import EsriTin

  // ---------------------------------------------------------------------
  // getTinName
  // ---------------------------------------------------------------------

  /** The separators `find_last_of("\\/")` looks for. */
  predicate IsSep(ch: char)
  {
    ch == '/' || ch == '\\'
  }

  predicate NoSep(s: string)
  {
    forall i :: 0 <= i < |s| ==> !IsSep(s[i])
  }

  /** `find_last_of("\\/")`: the position of the last separator, `None` for `npos`. */
  function FindLastSep(s: string): (r: Option<nat>)
    ensures r.None? <==> NoSep(s)
    ensures r.Some? ==> r.value < |s| && IsSep(s[r.value]) && NoSep(s[r.value + 1..])
  {
    if |s| == 0 then None
    else if IsSep(s[|s| - 1]) then Some(|s| - 1)
    else
      var r := FindLastSep(s[..|s| - 1]);
      assert s[..|s| - 1] + [s[|s| - 1]] == s;
      if r.Some? then
        assert s[r.value + 1..] == s[..|s| - 1][r.value + 1..] + [s[|s| - 1]];
        r
      else
        r
  }

  /** The path holds two separators. */
  predicate HasTwoSeps(uri: string)
  {
    exists a, b :: 0 <= a < b < |uri| && IsSep(uri[a]) && IsSep(uri[b])
  }

  /**
   * `getTinName`: the name of the directory that holds the file, that is
   * the text between the last two separators; empty when the path has
   * fewer than two.
   */
  method GetTinName(uri: string) returns (tinName: string)
    ensures !HasTwoSeps(uri) ==> tinName == ""
    ensures HasTwoSeps(uri) ==>
      exists a, b :: 0 <= a < b < |uri| && IsSep(uri[a]) && IsSep(uri[b]) &&
        NoSep(uri[b + 1..]) && tinName == uri[a + 1..b] && NoSep(tinName)
  {
    tinName := uri;
    var lastSlash := FindLastSep(tinName);
    if lastSlash.None? {
      return "";
    }
    var b := lastSlash.value;
    tinName := tinName[..b];
    lastSlash := FindLastSep(tinName);
    if lastSlash.None? {
      return "";
    }
    var a := lastSlash.value;
    tinName := tinName[a + 1..];
    assert IsSep(uri[a]) && tinName == uri[a + 1..b];
  }

  // ---------------------------------------------------------------------
  // getCrsWkt
  // ---------------------------------------------------------------------

  /** The COM class id of ESRI's UnknownCoordinateSystem class. */
  const UNKNOWN_CRS := "{B286C06B-0879-11D2-AACA-00C04FA33C20}"

  /** `std::getline`: the text before the first line feed. */
  function FirstLine(text: string): (line: string)
    ensures line <= text && '\n' !in line
    ensures |line| < |text| ==> text[|line|] == '\n'
  {
    if |text| == 0 || text[0] == '\n' then ""
    else [text[0]] + FirstLine(text[1..])
  }

  /**
   * `getCrsWkt` over the contents of prj.adf (`None` when the file cannot
   * be opened): its first line, except that the unknown-system class id
   * means no coordinate system.
   */
  function GetCrsWkt(prj: Option<string>): (crs: string)
    ensures prj.None? ==> crs == ""
    ensures prj.Some? && FirstLine(prj.value) == UNKNOWN_CRS ==> crs == ""
    ensures prj.Some? && FirstLine(prj.value) != UNKNOWN_CRS ==> crs == FirstLine(prj.value)
  {
    match prj
    case None => ""
    case Some(text) =>
      var crsWkt := FirstLine(text);
      if crsWkt == UNKNOWN_CRS then "" else crsWkt
  }

  /** The load sets a coordinate system exactly when the first line is neither empty nor the unknown class id. */
  lemma CrsIsSetIff(prj: Option<string>)
    ensures GetCrsWkt(prj) != "" <==> prj.Some? && FirstLine(prj.value) != "" && FirstLine(prj.value) != UNKNOWN_CRS
  {
  }

  // ---------------------------------------------------------------------
  // readSuperpoints
  // ---------------------------------------------------------------------

  /** The indices of thul.adf before the first -1 (all of them when there is none). */
  function HullPrefix(hull: seq<EsriTin.int32>): (r: seq<EsriTin.int32>)
    ensures r <= hull && -1 !in r
    ensures |r| < |hull| ==> hull[|r|] == -1
  {
    if |hull| == 0 || hull[0] == -1 then []
    else [hull[0]] + HullPrefix(hull[1..])
  }

  predicate Sorted(s: seq<EsriTin.int32>)
  {
    forall i, j :: 0 <= i < j < |s| ==> s[i] <= s[j]
  }

  /** One step of `std::list::sort`, modelled as insertion: x goes after every element not above it. */
  method InsertSorted(s: seq<EsriTin.int32>, x: EsriTin.int32) returns (r: seq<EsriTin.int32>)
    requires Sorted(s)
    ensures Sorted(r) && multiset(r) == multiset(s) + multiset{x}
  {
    var k := 0;
    while k < |s| && s[k] <= x
      invariant 0 <= k <= |s|
      invariant forall q :: 0 <= q < k ==> s[q] <= x
    {
      k := k + 1;
    }
    r := s[..k] + [x] + s[k..];
    InsertKeepsSorted(s, x, k);
    assert s == s[..k] + s[k..];
  }

  lemma InsertKeepsSorted(s: seq<EsriTin.int32>, x: EsriTin.int32, k: nat)
    requires Sorted(s) && k <= |s|
    requires forall q :: 0 <= q < k ==> s[q] <= x
    requires k < |s| ==> x < s[k]
    ensures Sorted(s[..k] + [x] + s[k..])
  {
    var r := s[..k] + [x] + s[k..];
    forall i, j | 0 <= i < j < |r|
      ensures r[i] <= r[j]
    {
      var si := if i < k then i else if i == k then -1 else i - 1;
      var sj := if j < k then j else if j == k then -1 else j - 1;
      if i == k {
        assert r[j] == s[sj] && sj >= k;
      } else if j == k {
        assert r[i] == s[si] && si < k;
      } else {
        assert r[i] == s[si] && r[j] == s[sj] && si < sj;
      }
    }
  }

  /** `std::list::sort`: ascending, by repeated insertion. */
  method SortIndexes(xs: seq<EsriTin.int32>) returns (ys: seq<EsriTin.int32>)
    ensures Sorted(ys) && multiset(ys) == multiset(xs)
  {
    ys := [];
    for i := 0 to |xs|
      invariant Sorted(ys) && multiset(ys) == multiset(xs[..i])
    {
      assert xs[..i + 1] == xs[..i] + [xs[i]];
      ys := InsertSorted(ys, xs[i]);
    }
    assert xs[..|xs|] == xs;
  }

  /**
   * `readSuperpoints`: append indices until the file ends or a -1 is
   * read, then sort them ascending.
   */
  method ReadSuperpoints(hull: seq<EsriTin.int32>) returns (superpoints: seq<EsriTin.int32>)
    ensures Sorted(superpoints)
    ensures multiset(superpoints) == multiset(HullPrefix(hull))
  {
    var read: seq<EsriTin.int32> := [];
    var pos := 0;
    while pos < |hull| && hull[pos] != -1
      invariant 0 <= pos <= |hull|
      invariant read == hull[..pos] && -1 !in read
      invariant pos <= |HullPrefix(hull)|
    {
      read := read + [hull[pos]];
      pos := pos + 1;
    }
    assert read == HullPrefix(hull);
    superpoints := SortIndexes(read);
  }
}
