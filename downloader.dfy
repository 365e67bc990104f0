/**
 * The selection logic of downloader.py: which links of the publication page
 * are rate archives, the list ordered newest first, the latest archive, and
 * the archive for a given date (exact, or the closest within five days).
 */
module Downloader {
  import opened Wrappers
  import opened Calendar
  import opened Sequences
  import opened Utils
  import opened Strings

  /** One downloadable archive: its file name, its absolute URL and the date in its name. */
  datatype FileInfo = FileInfo(filename: string, url: string, date: Date)

  const DownloadMarker: string := "/document/download/"
  const ArchiveMarker: string := "EIOPA_RFR_"
  const SiteRoot: string := "https://www.eiopa.europa.eu"
  /** The tolerance, in days, of `get_file_by_date`. */
  const DateTolerance: nat := 5

  /** The longest prefix without `&`: the greedy `[^&]+` group. */
  function UpToAmpersand(s: string): (r: string)
    ensures |r| <= |s| && r == s[..|r|]
    ensures '&' !in r
    ensures |r| < |s| ==> s[|r|] == '&'
  {
    if s == [] || s[0] == '&' then [] else [s[0]] + UpToAmpersand(s[1..])
  }

  /** `filename=` followed by at least one character other than `&` starts at position `k`. */
  predicate ParamAt(href: string, k: int) {
    0 <= k && k + 10 <= |href| && href[k..k + 9] == "filename=" && href[k + 9] != '&'
  }

  /** `re.search(r'filename=([^&]+)', href)` from position `k` on: the group of the leftmost match. */
  function FilenameParamFrom(href: string, k: nat): (r: Option<string>)
    decreases |href| - k
  {
    if k + 10 > |href| then None
    else if ParamAt(href, k) then Some(UpToAmpersand(href[k + 9..]))
    else FilenameParamFrom(href, k + 1)
  }

  function FilenameParam(href: string): Option<string> {
    FilenameParamFrom(href, 0)
  }

  /** `j` is the leftmost position at or after `k` where a parameter value starts. */
  predicate FirstParamFrom(href: string, k: int, j: int) {
    k <= j && ParamAt(href, j) && forall j' :: k <= j' < j ==> !ParamAt(href, j')
  }

  /** The value found is the run after the leftmost `filename=` that has one. */
  lemma {:induction false} FilenameParamFromSpec(href: string, k: nat)
    ensures FilenameParamFrom(href, k).None? <==> forall j :: k <= j ==> !ParamAt(href, j)
    ensures FilenameParamFrom(href, k).Some? ==>
      exists j :: FirstParamFrom(href, k, j) && FilenameParamFrom(href, k).value == UpToAmpersand(href[j + 9..])
    decreases |href| - k
  {
    if k + 10 > |href| {
      assert FilenameParamFrom(href, k).None?;
      forall j | k <= j
        ensures !ParamAt(href, j)
      {
      }
    } else if ParamAt(href, k) {
      assert FirstParamFrom(href, k, k);
    } else {
      FilenameParamFromSpec(href, k + 1);
      assert FilenameParamFrom(href, k) == FilenameParamFrom(href, k + 1);
      if FilenameParamFrom(href, k + 1).Some? {
        var j :| FirstParamFrom(href, k + 1, j) && FilenameParamFrom(href, k + 1).value == UpToAmpersand(href[j + 9..]);
        assert FirstParamFrom(href, k, j);
      } else {
        forall j | k <= j
          ensures !ParamAt(href, j)
        {
          if j > k {
            assert k + 1 <= j;
          }
        }
      }
    }
  }

  /** The link test and the record built for a kept link: the parameter must name a dated archive; relative links get the site root. */
  function LinkToFile(href: string): Option<FileInfo> {
    if Contains(href, DownloadMarker) && Contains(href, ArchiveMarker) then
      match FilenameParam(href)
      case None => None
      case Some(filename) =>
        match ParseDateFromFilename(filename)
        case None => None
        case Some(d) => Some(FileInfo(filename, if StartsWith(href, "http") then href else SiteRoot + href, d))
    else None
  }

  /** What a kept link yields: a dated name free of `&`, and an absolute URL. */
  lemma LinkToFileSpec(href: string)
    requires LinkToFile(href).Some?
    ensures var f := LinkToFile(href).value;
      && Contains(href, DownloadMarker) && Contains(href, ArchiveMarker)
      && ParseDateFromFilename(f.filename) == Some(f.date)
      && f.filename != [] && '&' !in f.filename
      && StartsWith(f.url, "http")
      && (f.url == href || f.url == SiteRoot + href)
  {
    FilenameParamFromSpec(href, 0);
    var f := LinkToFile(href).value;
    if !StartsWith(href, "http") {
      assert (SiteRoot + href)[..4] == "http";
    }
  }

  /** What each link of the page yields, in page order. */
  function Links(hrefs: seq<string>): (r: seq<Option<FileInfo>>)
    ensures |r| == |hrefs|
  {
    seq(|hrefs|, i requires 0 <= i < |hrefs| => LinkToFile(hrefs[i]))
  }

  /** The kept links, in page order. */
  function Listed(hrefs: seq<string>): seq<FileInfo> {
    Present(Links(hrefs))
  }

  /** A record is listed exactly when some link of the page yields it. */
  lemma ListedExactly(hrefs: seq<string>, f: FileInfo)
    ensures f in Listed(hrefs) <==> exists i :: 0 <= i < |hrefs| && LinkToFile(hrefs[i]) == Some(f)
  {
    PresentExactly(Links(hrefs), f);
    if exists i :: 0 <= i < |hrefs| && LinkToFile(hrefs[i]) == Some(f) {
      var i :| 0 <= i < |hrefs| && LinkToFile(hrefs[i]) == Some(f);
      assert Links(hrefs)[i] == Some(f);
    }
  }

  // --------------------------------------------------------- newest first

  /** Insert after every entry dated on or after `f`: with entries arriving in page order this keeps equal dates in page order. */
  function InsertDesc(s: seq<FileInfo>, f: FileInfo): seq<FileInfo> {
    if s == [] then [f]
    else if Ordinal(s[|s| - 1].date) < Ordinal(f.date) then InsertDesc(s[..|s| - 1], f) + [s[|s| - 1]]
    else s + [f]
  }

  /** `files.sort(key=date, reverse=True)`, a stable sort. */
  function SortDesc(files: seq<FileInfo>): seq<FileInfo> {
    if files == [] then []
    else InsertDesc(SortDesc(files[..|files| - 1]), files[|files| - 1])
  }

  predicate Descending(s: seq<FileInfo>) {
    forall i, j :: 0 <= i < j < |s| ==> Ordinal(s[i].date) >= Ordinal(s[j].date)
  }

  /** The entries of one date, in order. */
  function OnDate(s: seq<FileInfo>, d: Date): seq<FileInfo> {
    if s == [] then []
    else OnDate(s[..|s| - 1], d) + if s[|s| - 1].date == d then [s[|s| - 1]] else []
  }

  /** Where `InsertDesc` places the entry. */
  function InsertDescPos(s: seq<FileInfo>, f: FileInfo): (k: nat)
    ensures k <= |s|
  {
    if s == [] then 0
    else if Ordinal(s[|s| - 1].date) < Ordinal(f.date) then InsertDescPos(s[..|s| - 1], f)
    else |s|
  }

  /** The entry goes after the last entry at least as new: every entry from there on is older. */
  lemma InsertDescPosBounds(s: seq<FileInfo>, f: FileInfo)
    ensures forall j :: InsertDescPos(s, f) <= j < |s| ==> Ordinal(s[j].date) < Ordinal(f.date)
    ensures InsertDescPos(s, f) > 0 ==> Ordinal(s[InsertDescPos(s, f) - 1].date) >= Ordinal(f.date)
  {
    InsertDescPosOlder(s, f);
    InsertDescPosNewer(s, f);
  }

  lemma {:induction false} InsertDescPosOlder(s: seq<FileInfo>, f: FileInfo)
    ensures forall j :: InsertDescPos(s, f) <= j < |s| ==> Ordinal(s[j].date) < Ordinal(f.date)
  {
    if s != [] && Ordinal(s[|s| - 1].date) < Ordinal(f.date) {
      var init := s[..|s| - 1];
      InsertDescPosOlder(init, f);
      assert InsertDescPos(s, f) == InsertDescPos(init, f);
      forall j | InsertDescPos(s, f) <= j < |init|
        ensures Ordinal(s[j].date) < Ordinal(f.date)
      {
        assert s[j] == init[j];
      }
    }
  }

  lemma {:induction false} InsertDescPosNewer(s: seq<FileInfo>, f: FileInfo)
    ensures InsertDescPos(s, f) > 0 ==> Ordinal(s[InsertDescPos(s, f) - 1].date) >= Ordinal(f.date)
  {
    if s != [] && Ordinal(s[|s| - 1].date) < Ordinal(f.date) {
      var init := s[..|s| - 1];
      InsertDescPosNewer(init, f);
      assert InsertDescPos(s, f) == InsertDescPos(init, f);
      if InsertDescPos(init, f) > 0 {
        assert s[InsertDescPos(init, f) - 1] == init[InsertDescPos(init, f) - 1];
      }
    }
  }

  lemma {:induction false} InsertDescAt(s: seq<FileInfo>, f: FileInfo)
    ensures InsertDesc(s, f) == s[..InsertDescPos(s, f)] + [f] + s[InsertDescPos(s, f)..]
  {
    if s == [] {
    } else if Ordinal(s[|s| - 1].date) < Ordinal(f.date) {
      var init, last := s[..|s| - 1], s[|s| - 1];
      InsertDescAt(init, f);
      assert init + [last] == s;
      InsertedBeforeLast(init, last, InsertDescPos(init, f), f);
    } else {
      InsertedAtEnd(s, f);
    }
  }


  lemma InsertDescSorted(s: seq<FileInfo>, f: FileInfo)
    requires Descending(s)
    ensures Descending(InsertDesc(s, f))
  {
    InsertDescAt(s, f);
    InsertDescPosBounds(s, f);
    DescendingInsertion(s, f, InsertDescPos(s, f));
  }

  /** An entry placed after every entry at least as new, and before every older one, keeps the order. */
  lemma DescendingInsertion(s: seq<FileInfo>, f: FileInfo, k: nat)
    requires Descending(s) && k <= |s|
    requires forall j :: k <= j < |s| ==> Ordinal(s[j].date) < Ordinal(f.date)
    requires k > 0 ==> Ordinal(s[k - 1].date) >= Ordinal(f.date)
    ensures Descending(s[..k] + [f] + s[k..])
  {
    var u := s[..k] + [f] + s[k..];
    forall i | 0 <= i < k
      ensures Ordinal(s[i].date) >= Ordinal(f.date)
    {
      if i < k - 1 {
        assert Ordinal(s[i].date) >= Ordinal(s[k - 1].date);
      }
    }
    forall i, j | 0 <= i < j < |u|
      ensures Ordinal(u[i].date) >= Ordinal(u[j].date)
    {
      InsertedAt(s, k, f, i);
      InsertedAt(s, k, f, j);
      if j < k {
        assert Ordinal(s[i].date) >= Ordinal(s[j].date);
      } else if j == k {
        assert Ordinal(s[i].date) >= Ordinal(f.date);
      } else if i < k {
        assert Ordinal(s[i].date) >= Ordinal(s[j - 1].date);
      } else if i == k {
        assert Ordinal(s[j - 1].date) < Ordinal(f.date);
      } else {
        assert Ordinal(s[i - 1].date) >= Ordinal(s[j - 1].date);
      }
    }
  }

  lemma InsertDescPermutes(s: seq<FileInfo>, f: FileInfo)
    ensures multiset(InsertDesc(s, f)) == multiset(s) + multiset{f}
  {
    InsertDescAt(s, f);
    InsertedMultiset(s, InsertDescPos(s, f), f);
  }

  lemma {:induction false} OnDateNone(s: seq<FileInfo>, d: Date)
    requires forall j :: 0 <= j < |s| ==> s[j].date != d
    ensures OnDate(s, d) == []
  {
    if s != [] {
      OnDateNone(s[..|s| - 1], d);
    }
  }

  /** Inserting an entry where no later entry shares its date adds it at the end of its date's entries. */
  lemma OnDateInserted(s: seq<FileInfo>, f: FileInfo, d: Date, k: nat)
    requires k <= |s|
    requires forall j :: k <= j < |s| ==> s[j].date != d || f.date != d
    ensures OnDate(s[..k] + [f] + s[k..], d) == OnDate(s, d) + if f.date == d then [f] else []
  {
    var before, after := s[..k], s[k..];
    OnDateSplit(before, f, after, d);
    assert before + after == s;
    OnDateAppend(before, after, d);
    if f.date == d {
      LaterOtherDates(s, d, k);
      OnDateNone(after, d);
    }
  }

  lemma OnDateSplit(before: seq<FileInfo>, f: FileInfo, after: seq<FileInfo>, d: Date)
    ensures OnDate(before + [f] + after, d) == OnDate(before, d) + (if f.date == d then [f] else []) + OnDate(after, d)
  {
    OnDateAppend(before + [f], after, d);
    OnDateAppend(before, [f], d);
    OnDateSingle(f, d);
  }

  lemma LaterOtherDates(s: seq<FileInfo>, d: Date, k: nat)
    requires k <= |s|
    requires forall j :: k <= j < |s| ==> s[j].date != d
    ensures forall j :: 0 <= j < |s[k..]| ==> s[k..][j].date != d
  {
    forall j | 0 <= j < |s[k..]|
      ensures s[k..][j].date != d
    {
      assert s[k..][j] == s[k + j];
    }
  }

  lemma InsertDescStable(s: seq<FileInfo>, f: FileInfo, d: Date)
    ensures OnDate(InsertDesc(s, f), d) == OnDate(s, d) + if f.date == d then [f] else []
  {
    InsertDescAt(s, f);
    InsertDescPosBounds(s, f);
    OnDateInserted(s, f, d, InsertDescPos(s, f));
  }

  lemma OnDateSingle(f: FileInfo, d: Date)
    ensures OnDate([f], d) == if f.date == d then [f] else []
  {
    assert [f][..0] == [];
  }

  lemma {:induction false} OnDateAppend(a: seq<FileInfo>, b: seq<FileInfo>, d: Date)
    ensures OnDate(a + b, d) == OnDate(a, d) + OnDate(b, d)
    decreases |b|
  {
    if b != [] {
      var n := |b| - 1;
      assert (a + b)[..|a + b| - 1] == a + b[..n];
      OnDateAppend(a, b[..n], d);
    } else {
      assert a + b == a;
    }
  }

  /** The sort orders newest first. */
  lemma {:induction false} SortDescSorted(files: seq<FileInfo>)
    ensures Descending(SortDesc(files))
  {
    if files != [] {
      var n := |files| - 1;
      SortDescSorted(files[..n]);
      InsertDescSorted(SortDesc(files[..n]), files[n]);
    }
  }

  /** The sort loses and adds nothing. */
  lemma {:induction false} SortDescPermutes(files: seq<FileInfo>)
    ensures multiset(SortDesc(files)) == multiset(files)
  {
    if files != [] {
      var n := |files| - 1;
      var init, last := files[..n], files[n];
      SortDescPermutes(init);
      InsertDescPermutes(SortDesc(init), last);
      assert SortDesc(files) == InsertDesc(SortDesc(init), last);
      assert files == init + [last];
      assert multiset(files) == multiset(init) + multiset{last};
    }
  }

  /** The sort keeps the entries of each date in page order. */
  lemma {:induction false} SortDescStable(files: seq<FileInfo>, d: Date)
    ensures OnDate(SortDesc(files), d) == OnDate(files, d)
  {
    if files != [] {
      var n := |files| - 1;
      var init, last := files[..n], files[n];
      SortDescStable(init, d);
      InsertDescStable(SortDesc(init), last, d);
      assert OnDate(files, d) == OnDate(init, d) + if last.date == d then [last] else [];
    }
  }

  /** `get_available_files` over the page's links (the page itself is fetched outside the model). */
  method GetAvailableFiles(hrefs: seq<string>) returns (files: seq<FileInfo>)
    ensures files == SortDesc(Listed(hrefs))
  {
    ghost var links := Links(hrefs);
    files := [];
    for i := 0 to |hrefs|
      invariant files == Present(links[..i])
    {
      assert links[..i + 1][..i] == links[..i];
      var link := LinkToFile(hrefs[i]);
      assert links[i] == link;
      if link.Some? {
        files := files + [link.value];
      }
    }
    assert links[..|hrefs|] == links;
    files := SortDesc(files);
  }

  /** The head of a descending permutation of a list is in the list and dated no earlier than any of its entries. */
  lemma LatestIsMaximal(files: seq<FileInfo>, listed: seq<FileInfo>)
    requires files != [] && Descending(files) && multiset(files) == multiset(listed)
    ensures files[0] in listed
    ensures forall f :: f in listed ==> Ordinal(f.date) <= Ordinal(files[0].date)
  {
    assert files[0] in multiset(files);
    forall f | f in listed
      ensures Ordinal(f.date) <= Ordinal(files[0].date)
    {
      assert f in multiset(listed);
      assert f in files;
      var k :| 0 <= k < |files| && files[k] == f;
      if k > 0 {
        assert Ordinal(files[0].date) >= Ordinal(files[k].date);
      }
    }
  }

  /** The first entry of a list heads the entries of its own date. */
  lemma {:induction false} OnDateHead(s: seq<FileInfo>)
    requires s != []
    ensures OnDate(s, s[0].date) != [] && OnDate(s, s[0].date)[0] == s[0]
  {
    var n := |s| - 1;
    if n > 0 {
      OnDateHead(s[..n]);
    }
  }

  /** `get_latest_file`: the head of the sorted list, which is the first-listed archive of the latest date. */
  method GetLatestFile(hrefs: seq<string>) returns (r: Option<FileInfo>)
    ensures r.None? <==> Listed(hrefs) == []
    ensures r.Some? ==> r.value in Listed(hrefs) && forall f :: f in Listed(hrefs) ==> Ordinal(f.date) <= Ordinal(r.value.date)
    ensures r.Some? ==> OnDate(Listed(hrefs), r.value.date) != [] && OnDate(Listed(hrefs), r.value.date)[0] == r.value
  {
    var files := GetAvailableFiles(hrefs);
    ghost var listed := Listed(hrefs);
    SortDescSorted(listed);
    SortDescPermutes(listed);
    if files == [] {
      assert |multiset(listed)| == 0;
      return None;
    }
    LatestIsMaximal(files, listed);
    SortDescStable(listed, files[0].date);
    OnDateHead(files);
    return Some(files[0]);
  }

  // ------------------------------------------------------- by target date

  function DayDistance(a: Date, b: Date): nat {
    var d := Ordinal(a) - Ordinal(b);
    if d < 0 then -d else d
  }

  /** Entry `i` is the first one dated on the target. */
  ghost predicate IsFirstExact(files: seq<FileInfo>, target: Date, i: int) {
    0 <= i < |files| && files[i].date == target && forall j :: 0 <= j < i ==> files[j].date != target
  }

  /** Entry `i` is at minimal distance from the target, and strictly closer than every entry before it. */
  ghost predicate IsFirstClosest(files: seq<FileInfo>, target: Date, i: int) {
    && 0 <= i < |files|
    && (forall j :: 0 <= j < |files| ==> DayDistance(files[i].date, target) <= DayDistance(files[j].date, target))
    && (forall j :: 0 <= j < i ==> DayDistance(files[i].date, target) < DayDistance(files[j].date, target))
  }

  /**
   * `get_file_by_date` over the sorted list: the first archive of the target
   * date; failing that the first of the closest archives, if at most five days away.
   */
  method GetFileByDate(files: seq<FileInfo>, target: Date) returns (r: Option<FileInfo>)
    ensures (exists i :: IsFirstExact(files, target, i)) ==> exists i :: IsFirstExact(files, target, i) && r == Some(files[i])
    ensures (forall i :: 0 <= i < |files| ==> files[i].date != target) ==>
      && (r.None? <==> forall j :: 0 <= j < |files| ==> DayDistance(files[j].date, target) > DateTolerance)
      && (r.Some? ==> exists i :: IsFirstClosest(files, target, i) && r == Some(files[i]) && DayDistance(files[i].date, target) <= DateTolerance)
  {
    var closest: Option<nat> := None;
    for k := 0 to |files|
      invariant forall j :: 0 <= j < k ==> files[j].date != target
      invariant closest.None? <==> k == 0
      invariant closest.Some? ==> closest.value < k
      invariant closest.Some? ==> forall j :: 0 <= j < k ==> DayDistance(files[closest.value].date, target) <= DayDistance(files[j].date, target)
      invariant closest.Some? ==> forall j :: 0 <= j < closest.value ==> DayDistance(files[closest.value].date, target) < DayDistance(files[j].date, target)
    {
      if files[k].date == target {
        assert IsFirstExact(files, target, k);
        return Some(files[k]);
      }
      if closest.None? || DayDistance(files[k].date, target) < DayDistance(files[closest.value].date, target) {
        closest := Some(k);
      }
    }
    if closest.Some? && DayDistance(files[closest.value].date, target) <= DateTolerance {
      assert IsFirstClosest(files, target, closest.value);
      return Some(files[closest.value]);
    }
    return None;
  }
}
