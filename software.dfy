/**
 * The software catalogue of scripts/fetch_software.py: the owner and the
 * repository name taken from a URL path, the language breakdown in
 * percent sorted by share, and the catalogue records assembled from the
 * repository list.
 *
 * `urlparse` is replaced by the path of each URL, given as a function
 * `pathOf`; the two GitHub API calls are replaced by their results,
 * given as functions of the owner and the repository name.
 */
module Software {
  import opened Wrappers
  import opened Text
  import opened Ordering

  // ---------------------------------------------------------------- URL path

  /** The number of leading `c` characters of `s`. */
  function LeadingRun(s: string, c: char): (n: nat)
    ensures n <= |s|
    ensures forall i :: 0 <= i < n ==> s[i] == c
    ensures n < |s| ==> s[n] != c
    decreases |s|
  {
    if s == [] || s[0] != c then 0 else 1 + LeadingRun(s[1..], c)
  }

  /** The number of trailing `c` characters of `s`. */
  function TrailingRun(s: string, c: char): (n: nat)
    ensures n <= |s|
    ensures forall i :: |s| - n <= i < |s| ==> s[i] == c
    ensures n < |s| ==> s[|s| - 1 - n] != c
    decreases |s|
  {
    if s == [] || s[|s| - 1] != c then 0 else 1 + TrailingRun(s[..|s| - 1], c)
  }

  /** Python's `s.strip(c)`: every leading and trailing `c` removed. */
  function StripChar(s: string, c: char): (r: string)
    ensures |r| <= |s|
    ensures r != "" ==> r[0] != c && r[|r| - 1] != c
    ensures r == "" <==> forall i :: 0 <= i < |s| ==> s[i] == c
    ensures s != "" && s[0] != c && s[|s| - 1] != c ==> r == s
    ensures LeadingRun(s, c) + |r| <= |s| && r == s[LeadingRun(s, c)..LeadingRun(s, c) + |r|]
    ensures forall i :: LeadingRun(s, c) + |r| <= i < |s| ==> s[i] == c
  {
    var a := LeadingRun(s, c);
    if a == |s| then ""
    else
      var b := |s| - TrailingRun(s, c);
      assert a < b;
      s[a..b]
  }

  /** `path.strip('/').split('/')`. */
  function Segments(path: string): (r: seq<string>)
    ensures |r| >= 1
    ensures forall i :: 0 <= i < |r| ==> '/' !in r[i]
  {
    var r := Split(StripChar(path, '/'), "/");
    SplitPiecesAvoidSeparator(StripChar(path, '/'), '/');
    assert forall i :: 0 <= i < |r| ==> r[i] in r;
    r
  }

  /** `extract_repo_name`: the last segment of the path. */
  function RepoName(path: string): string {
    var segs := Segments(path);
    segs[|segs| - 1]
  }

  /** The owner in `main`: the first segment of the path. */
  function Owner(path: string): string {
    Segments(path)[0]
  }

  /** A path of the form `/owner/repo`, with or without a final slash. */
  function RepoPath(owner: string, repo: string, trailingSlash: bool): string {
    "/" + (owner + "/" + repo) + (if trailingSlash then "/" else "")
  }

  lemma SlashJoin(owner: string, repo: string)
    ensures Join("/", [owner, repo]) == owner + "/" + repo
  {
    assert [owner, repo][1..] == [repo];
  }

  /** Stripping `c` from `inner` with one `c` before it, and maybe one after it, gives `inner`. */
  lemma StripOneEach(inner: string, c: char, trailing: bool)
    requires inner != "" && inner[0] != c && inner[|inner| - 1] != c
    ensures StripChar([c] + inner + (if trailing then [c] else []), c) == inner
  {
    var s := [c] + inner + (if trailing then [c] else []);
    assert s[1..] == inner + (if trailing then [c] else []);
    assert LeadingRun(s[1..], c) == 0;
    assert LeadingRun(s, c) == 1;
    if trailing {
      assert s[..|s| - 1] == [c] + inner;
      assert TrailingRun(s[..|s| - 1], c) == 0;
      assert TrailingRun(s, c) == 1;
      assert s[1..|s| - 1] == inner;
    } else {
      assert TrailingRun(s, c) == 0;
      assert s[1..|s|] == inner;
    }
  }

  /**
   * The owner and the name of a repository URL read back from its path:
   * `/owner/repo` and `/owner/repo/` give `owner` and `repo`.
   */
  lemma RepoPathReadsBack(owner: string, repo: string, trailingSlash: bool)
    requires owner != "" && repo != ""
    requires '/' !in owner && '/' !in repo
    ensures Owner(RepoPath(owner, repo, trailingSlash)) == owner
    ensures RepoName(RepoPath(owner, repo, trailingSlash)) == repo
  {
    SegmentsOfRepoPath(owner, repo, trailingSlash);
  }

  lemma SegmentsOfRepoPath(owner: string, repo: string, trailingSlash: bool)
    requires owner != "" && repo != ""
    requires '/' !in owner && '/' !in repo
    ensures Segments(RepoPath(owner, repo, trailingSlash)) == [owner, repo]
  {
    var inner := owner + "/" + repo;
    InnerNotSlash(owner, repo);
    StripOneEach(inner, '/', trailingSlash);
    assert RepoPath(owner, repo, trailingSlash) == ['/'] + inner + (if trailingSlash then ['/'] else []);
    SplitTwo(owner, repo);
  }

  lemma InnerNotSlash(owner: string, repo: string)
    requires owner != "" && repo != ""
    requires '/' !in owner && '/' !in repo
    ensures var inner := owner + "/" + repo; inner != "" && inner[0] != '/' && inner[|inner| - 1] != '/'
  {
    var inner := owner + "/" + repo;
    assert owner[0] in owner && repo[|repo| - 1] in repo;
    assert inner[0] == owner[0] && inner[|inner| - 1] == repo[|repo| - 1];
  }

  lemma SplitTwo(owner: string, repo: string)
    requires '/' !in owner && '/' !in repo
    ensures Split(owner + "/" + repo, "/") == [owner, repo]
  {
    SlashJoin(owner, repo);
    SplitOfJoin([owner, repo], '/');
  }

  /** A path with one segment has that segment as both owner and name. */
  lemma OneSegmentPath(path: string)
    requires '/' !in StripChar(path, '/')
    ensures Owner(path) == RepoName(path) == StripChar(path, '/')
  {
    SplitWithoutSeparator(StripChar(path, '/'), '/');
  }

  // ---------------------------------------------------------------- languages

  /** One language of a repository and its byte count, from the languages endpoint. */
  datatype LangBytes = LangBytes(lang: string, bytes: nat)

  /** One entry of the ordered breakdown. */
  datatype LangShare = LangShare(lang: string, percent: real)

  function BytesOf(l: LangBytes): int { l.bytes }

  function TotalBytes(ls: seq<LangBytes>): nat
    decreases |ls|
  {
    if ls == [] then 0 else ls[0].bytes + TotalBytes(ls[1..])
  }

  /** Share of one language in percent, as an exact fraction. */
  function Share(l: LangBytes, total: nat): (r: LangShare)
    requires total > 0
    ensures r.lang == l.lang
    ensures r.percent >= 0.0
  {
    LangShare(l.lang, (l.bytes as real) / (total as real) * 100.0)
  }

  function Shares(ls: seq<LangBytes>, total: nat): (r: seq<LangShare>)
    requires total > 0
    ensures |r| == |ls|
    ensures forall i :: 0 <= i < |ls| ==> r[i] == Share(ls[i], total)
  {
    seq(|ls|, i requires 0 <= i < |ls| => Share(ls[i], total))
  }

  /**
   * `calculate_language_percentages`: `None` for no languages or no bytes,
   * else one share per language, largest first.
   */
  function LanguagePercentages(languages: seq<LangBytes>): (r: Option<seq<LangShare>>)
    ensures r.None? <==> languages == [] || TotalBytes(languages) == 0
  {
    if languages == [] then None
    else
      var total := TotalBytes(languages);
      if total == 0 then None else Some(Shares(SortDesc(languages, BytesOf), total))
  }

  lemma {:induction false} TotalConcat(a: seq<LangBytes>, b: seq<LangBytes>)
    ensures TotalBytes(a + b) == TotalBytes(a) + TotalBytes(b)
    decreases |a|
  {
    if a == [] {
      assert a + b == b;
    } else {
      TotalConcat(a[1..], b);
      assert (a + b)[1..] == a[1..] + b;
    }
  }

  lemma TotalInsert(x: LangBytes, ys: seq<LangBytes>)
    ensures TotalBytes(Insert(x, ys, BytesOf)) == x.bytes + TotalBytes(ys)
  {
    var p := InsertPos(x, ys, BytesOf);
    TotalConcat(ys[..p] + [x], ys[p..]);
    TotalConcat(ys[..p], [x]);
    TotalConcat(ys[..p], ys[p..]);
    assert ys[..p] + ys[p..] == ys;
    assert TotalBytes([x]) == x.bytes + TotalBytes([]);
  }

  /** Sorting keeps the byte total. */
  lemma {:induction false} TotalSortDesc(xs: seq<LangBytes>)
    ensures TotalBytes(SortDesc(xs, BytesOf)) == TotalBytes(xs)
    decreases |xs|
  {
    if xs != [] {
      TotalSortDesc(xs[1..]);
      TotalInsert(xs[0], SortDesc(xs[1..], BytesOf));
    }
  }

  function SumPercent(ss: seq<LangShare>): real
    decreases |ss|
  {
    if ss == [] then 0.0 else ss[0].percent + SumPercent(ss[1..])
  }

  lemma {:induction false} SumShares(ls: seq<LangBytes>, total: nat)
    requires total > 0
    ensures SumPercent(Shares(ls, total)) == (TotalBytes(ls) as real) / (total as real) * 100.0
    decreases |ls|
  {
    if ls != [] {
      SumShares(ls[1..], total);
      assert Shares(ls, total)[1..] == Shares(ls[1..], total);
      AddPercents(ls[0].bytes as real, TotalBytes(ls[1..]) as real, total as real);
    }
  }

  lemma AddPercents(a: real, b: real, t: real)
    requires t > 0.0
    ensures a / t * 100.0 + b / t * 100.0 == (a + b) / t * 100.0
  {
  }

  lemma ShareMonotone(a: LangBytes, b: LangBytes, total: nat)
    requires total > 0
    requires a.bytes >= b.bytes
    ensures Share(a, total).percent >= Share(b, total).percent
  {
    var t := total as real;
    assert (a.bytes as real) / t - (b.bytes as real) / t == ((a.bytes - b.bytes) as real) / t;
  }

  /** Shares of a list sorted by bytes never increase. */
  lemma SharesNonIncreasing(sorted: seq<LangBytes>, total: nat)
    requires total > 0
    requires SortedDesc(sorted, BytesOf)
    ensures forall i, j :: 0 <= i < j < |sorted| ==> Shares(sorted, total)[i].percent >= Shares(sorted, total)[j].percent
  {
    var r := Shares(sorted, total);
    forall i, j | 0 <= i < j < |sorted| ensures r[i].percent >= r[j].percent {
      assert BytesOf(sorted[i]) >= BytesOf(sorted[j]);
      ShareMonotone(sorted[i], sorted[j], total);
    }
  }

  /**
   * The breakdown, when there is one, lists every language of the input
   * exactly once (the sorted input, as a permutation), with shares that
   * never increase and that add up to exactly 100.
   */
  lemma LanguagePercentagesShape(languages: seq<LangBytes>)
    requires LanguagePercentages(languages).Some?
    ensures var total := TotalBytes(languages);
            var sorted := SortDesc(languages, BytesOf);
            var r := LanguagePercentages(languages).value;
            && total > 0
            && multiset(sorted) == multiset(languages)
            && |r| == |languages|
            && (forall i :: 0 <= i < |r| ==> r[i] == Share(sorted[i], total))
            && (forall i, j :: 0 <= i < j < |r| ==> r[i].percent >= r[j].percent)
            && SumPercent(r) == 100.0
  {
    var total := TotalBytes(languages);
    var sorted := SortDesc(languages, BytesOf);
    assert LanguagePercentages(languages).value == Shares(sorted, total);
    SortDescSortedPermutation(languages, BytesOf);
    assert |sorted| == |languages| by {
      assert |multiset(sorted)| == |multiset(languages)|;
    }
    SharesNonIncreasing(sorted, total);
    TotalSortDesc(languages);
    SumShares(sorted, total);
    assert SumPercent(Shares(sorted, total)) == (total as real) / (total as real) * 100.0;
    WholeIsHundred(total);
  }

  lemma WholeIsHundred(n: nat)
    requires n > 0
    ensures (n as real) / (n as real) * 100.0 == 100.0
  {
  }

  // ---------------------------------------------------------------- catalogue

  /** The `languages` table of a record: the raw byte counts and the ordered breakdown. */
  datatype Languages = Languages(bytes: seq<LangBytes>, ordered: Option<seq<LangShare>>)

  datatype SoftwareRecord = SoftwareRecord(
    name: string,
    url: string,
    description: string,
    languages: Option<Languages>)

  /**
   * The record appended for one URL, if any: only when the description
   * call returned one, and with a `languages` table only when the
   * languages call returned a non-empty dict.
   */
  function RepoRecord(url: string, path: string, description: Option<string>,
                      languages: Option<seq<LangBytes>>): (r: Option<SoftwareRecord>)
    ensures r.Some? <==> description.Some?
    ensures r.Some? ==>
              && r.value.name == RepoName(path)
              && r.value.url == url
              && r.value.description == description.value
              && (r.value.languages.Some? <==> languages.Some? && languages.value != [])
              && (r.value.languages.Some? ==>
                    r.value.languages.value == Languages(languages.value, LanguagePercentages(languages.value)))
  {
    if description.None? then None
    else
      var langs :=
        if languages.Some? && languages.value != []
        then Some(Languages(languages.value, LanguagePercentages(languages.value)))
        else None;
      Some(SoftwareRecord(RepoName(path), url, description.value, langs))
  }

  /** The record for `url`, asking the two endpoints about the owner and name of its path. */
  function RecordFor(url: string, pathOf: string -> string,
                     descriptionOf: (string, string) -> Option<string>,
                     languagesOf: (string, string) -> Option<seq<LangBytes>>): Option<SoftwareRecord>
  {
    var path := pathOf(url);
    var owner, repo := Owner(path), RepoName(path);
    RepoRecord(url, path, descriptionOf(owner, repo), languagesOf(owner, repo))
  }

  /** The `software` array `main` writes, in URL order. */
  function Catalogue(urls: seq<string>, pathOf: string -> string,
                     descriptionOf: (string, string) -> Option<string>,
                     languagesOf: (string, string) -> Option<seq<LangBytes>>): (r: seq<SoftwareRecord>)
    ensures |r| <= |urls|
    decreases |urls|
  {
    if urls == [] then []
    else
      var rec := RecordFor(urls[|urls| - 1], pathOf, descriptionOf, languagesOf);
      Catalogue(urls[..|urls| - 1], pathOf, descriptionOf, languagesOf) + (if rec.Some? then [rec.value] else [])
  }

  lemma CatalogueSnoc(urls: seq<string>, i: int, pathOf: string -> string,
                      descriptionOf: (string, string) -> Option<string>,
                      languagesOf: (string, string) -> Option<seq<LangBytes>>)
    requires 0 <= i < |urls|
    ensures var rec := RecordFor(urls[i], pathOf, descriptionOf, languagesOf);
            Catalogue(urls[..i + 1], pathOf, descriptionOf, languagesOf)
            == Catalogue(urls[..i], pathOf, descriptionOf, languagesOf) + (if rec.Some? then [rec.value] else [])
  {
    assert urls[..i + 1][..i] == urls[..i];
  }

  /** The repository loop of `main`. */
  method ProcessRepositories(urls: seq<string>, pathOf: string -> string,
                             descriptionOf: (string, string) -> Option<string>,
                             languagesOf: (string, string) -> Option<seq<LangBytes>>)
    returns (software: seq<SoftwareRecord>)
    ensures software == Catalogue(urls, pathOf, descriptionOf, languagesOf)
  {
    software := [];
    var i := 0;
    while i < |urls|
      invariant 0 <= i <= |urls|
      invariant software == Catalogue(urls[..i], pathOf, descriptionOf, languagesOf)
    {
      CatalogueSnoc(urls, i, pathOf, descriptionOf, languagesOf);
      var record := ProcessRepository(urls[i], pathOf, descriptionOf, languagesOf);
      if record.Some? {
        software := software + [record.value];
      }
      i := i + 1;
    }
    assert urls[..|urls|] == urls;
  }

  /** One pass of the repository loop: the record for `url`, if its description call answered. */
  method ProcessRepository(url: string, pathOf: string -> string,
                           descriptionOf: (string, string) -> Option<string>,
                           languagesOf: (string, string) -> Option<seq<LangBytes>>)
    returns (record: Option<SoftwareRecord>)
    ensures record == RecordFor(url, pathOf, descriptionOf, languagesOf)
  {
    var path := pathOf(url);
    var repoName := RepoName(path);
    var owner := Owner(path);
    var description := descriptionOf(owner, repoName);
    var languagesData := languagesOf(owner, repoName);
    record := None;
    if description.Some? {
      var languages: Option<Languages> := None;
      if languagesData.Some? && languagesData.value != [] {
        languages := Some(Languages(languagesData.value, LanguagePercentages(languagesData.value)));
      }
      record := Some(SoftwareRecord(repoName, url, description.value, languages));
    }
  }

  /**
   * Every record comes from a URL of the list whose description call
   * answered, carries that URL, its repository name and that
   * description; and every such URL has a record.
   */
  lemma {:induction false} CatalogueRecords(urls: seq<string>, pathOf: string -> string,
                                           descriptionOf: (string, string) -> Option<string>,
                                           languagesOf: (string, string) -> Option<seq<LangBytes>>)
    ensures forall r :: r in Catalogue(urls, pathOf, descriptionOf, languagesOf) ==>
              && r.url in urls
              && RecordFor(r.url, pathOf, descriptionOf, languagesOf) == Some(r)
              && r.name == RepoName(pathOf(r.url))
              && descriptionOf(Owner(pathOf(r.url)), RepoName(pathOf(r.url))) == Some(r.description)
    ensures forall u :: u in urls && RecordFor(u, pathOf, descriptionOf, languagesOf).Some? ==>
              RecordFor(u, pathOf, descriptionOf, languagesOf).value in Catalogue(urls, pathOf, descriptionOf, languagesOf)
    decreases |urls|
  {
    if urls != [] {
      var init, u := urls[..|urls| - 1], urls[|urls| - 1];
      CatalogueRecords(init, pathOf, descriptionOf, languagesOf);
      assert urls == init + [u];
    }
  }
}
