/**
 * The fetch loop of _scripts/update_publications.py: up to `max_attempts`
 * attempts with a linear backoff, one record per publication stub that
 * fills and extracts, a short pause after every successful stub but the
 * last, and a single placeholder record when the final attempt fails.
 *
 * The proxy, the profile lookup and the per-stub fill are network calls;
 * here their outcomes are an oracle `attempts`, one `Attempt` per attempt
 * number. Sleeps are not performed but returned, in order, as `pauses`.
 */
module PublicationFetch {
  import opened Wrappers
  import opened Text
  import opened Scholar
  import opened PublicationFormat

  /**
   * What one attempt meets: no proxy could be registered, the profile
   * lookup failed, or the profile listed its stubs, each of which either
   * filled (`Some`) or raised while filling (`None`).
   */
  datatype Attempt = ProxyUnavailable | LookupFailed | Listed(items: seq<Option<Filled>>)

  /** The number of attempts `get_publications_with_retry` makes when its caller gives none. */
  const DefaultMaxAttempts: nat := 5
  /** Seconds of backoff per attempt number. */
  const BackoffUnit: nat := 180
  /** Seconds between two stubs. */
  const ItemPause: nat := 2

  const PlaceholderTitle := "Publications temporarily unavailable"
  const PlaceholderAuthor := "Skaza, Jonathan"

  /** The Scholar page of one publication of the profile. */
  function CitationUrl(pubId: string): string {
    "https://scholar.google.com/citations?view_op=view_citation&citation_for_view=" + pubId
  }

  // ---------------------------------------------------------------- one stub

  /** `int(bib.get('pub_year', now.year))`: `None` when `int()` raises. */
  function RecordYear(bib: map<string, string>, currentYear: int): (r: Option<int>)
    ensures "pub_year" !in bib ==> r == Some(currentYear)
    ensures "pub_year" in bib ==> r == ParseInt(bib["pub_year"])
  {
    if "pub_year" in bib then ParseInt(bib["pub_year"]) else Some(currentYear)
  }

  /**
   * A year that prints as an integer reads back as that integer, surrounding
   * whitespace included; a missing year is the current one; a blank year
   * makes `int()` raise.
   */
  lemma RecordYearValues(bib: map<string, string>, currentYear: int, y: int)
    ensures "pub_year" !in bib ==> RecordYear(bib, currentYear) == Some(currentYear)
    ensures "pub_year" in bib && Strip(bib["pub_year"]) == IntToString(y) ==> RecordYear(bib, currentYear) == Some(y)
    ensures "pub_year" in bib && AllSpace(bib["pub_year"]) ==> RecordYear(bib, currentYear) == None
  {
    if "pub_year" in bib {
      var t := bib["pub_year"];
      ParseIntOfStripped(t);
      if Strip(t) == IntToString(y) {
        ParseIntOfIntToString(y);
      }
    }
  }

  /** The direct link when the record has one, else the Scholar page; `None` when the lookup raises. */
  function RecordLink(f: Filled): (r: Option<string>)
    ensures r.Some? <==> "pub_url" in f.fields || "author_pub_id" in f.fields
    ensures "pub_url" in f.fields ==> r == Some(f.fields["pub_url"])
    ensures "pub_url" !in f.fields && r.Some? ==> r.value == CitationUrl(f.fields["author_pub_id"])
  {
    if "pub_url" in f.fields then Some(f.fields["pub_url"])
    else if "author_pub_id" in f.fields then Some(CitationUrl(f.fields["author_pub_id"]))
    else None
  }

  /** `bib.get('journal', '') or bib.get('venue', '')`. */
  function RecordJournal(bib: map<string, string>): (r: string)
    ensures r == "" <==> GetOr(bib, "journal", "") == "" && GetOr(bib, "venue", "") == ""
    ensures r == GetOr(bib, "journal", "") || r == GetOr(bib, "venue", "")
    ensures GetOr(bib, "journal", "") != "" ==> r == bib["journal"]
  {
    var journal := GetOr(bib, "journal", "");
    if journal != "" then journal else GetOr(bib, "venue", "")
  }

  /**
   * The record the loop body builds from one filled stub, or `None` when
   * building it raises (no `bib`, a year `int()` rejects, no link at all).
   */
  function ExtractRecord(f: Filled, currentYear: int): (r: Option<Publication>)
    ensures r.Some? <==> f.bib.Some? && RecordYear(f.bib.value, currentYear).Some? && RecordLink(f).Some?
    ensures r.Some? ==>
              && r.value.title == GetOr(f.bib.value, "title", "")
              && r.value.author == GetOr(f.bib.value, "author", "")
              && r.value.journal == RecordJournal(f.bib.value)
              && r.value.number == ""
              && r.value.cites == (if f.numCitations.Some? then f.numCitations.value else 0)
              && Some(r.value.year) == RecordYear(f.bib.value, currentYear)
              && Some(r.value.link) == RecordLink(f)
  {
    match f.bib
    case None => None
    case Some(bib) =>
      var year := RecordYear(bib, currentYear);
      var link := RecordLink(f);
      if year.None? || link.None? then None
      else
        var cites := if f.numCitations.Some? then f.numCitations.value else 0;
        Some(Publication(GetOr(bib, "title", ""), GetOr(bib, "author", ""), RecordJournal(bib),
                         "", cites, year.value, link.value))
  }

  /** One stub: filled and extracted, or skipped. */
  function ItemRecord(item: Option<Filled>, currentYear: int): Option<Publication> {
    if item.None? then None else ExtractRecord(item.value, currentYear)
  }

  /** The records of the stubs that fill and extract, in stub order. */
  function Collected(items: seq<Option<Filled>>, currentYear: int): (r: seq<Publication>)
    ensures |r| <= |items|
    ensures forall i :: 0 <= i < |r| ==> r[i].number == ""
    decreases |items|
  {
    if items == [] then []
    else
      var rec := ItemRecord(items[|items| - 1], currentYear);
      Collected(items[..|items| - 1], currentYear) + (if rec.Some? then [rec.value] else [])
  }

  /**
   * The pauses after the first `i` stubs: one after each stub that
   * succeeds, unless it is the last stub of the list.
   */
  function PausesUpTo(items: seq<Option<Filled>>, i: nat, currentYear: int): seq<nat>
    requires i <= |items|
  {
    if i == 0 then []
    else
      PausesUpTo(items, i - 1, currentYear)
      + (if ItemRecord(items[i - 1], currentYear).Some? && i < |items| then [ItemPause] else [])
  }

  function ItemPauses(items: seq<Option<Filled>>, currentYear: int): seq<nat> {
    PausesUpTo(items, |items|, currentYear)
  }

  lemma CollectedSnoc(items: seq<Option<Filled>>, i: int, currentYear: int)
    requires 0 <= i < |items|
    ensures var rec := ItemRecord(items[i], currentYear);
            Collected(items[..i + 1], currentYear)
            == Collected(items[..i], currentYear) + (if rec.Some? then [rec.value] else [])
  {
    assert items[..i + 1][..i] == items[..i];
  }

  lemma PausesUpToSnoc(items: seq<Option<Filled>>, i: nat, currentYear: int)
    requires i < |items|
    ensures var rec := ItemRecord(items[i], currentYear);
            PausesUpTo(items, i + 1, currentYear)
            == PausesUpTo(items, i, currentYear) + (if rec.Some? && i + 1 < |items| then [ItemPause] else [])
  {
  }

  /** The stub loop of one attempt. */
  method FetchItems(items: seq<Option<Filled>>, currentYear: int)
    returns (publications: seq<Publication>, pauses: seq<nat>)
    ensures publications == Collected(items, currentYear)
    ensures pauses == ItemPauses(items, currentYear)
  {
    publications, pauses := [], [];
    var i := 0;
    while i < |items|
      invariant 0 <= i <= |items|
      invariant publications == Collected(items[..i], currentYear)
      invariant pauses == PausesUpTo(items, i, currentYear)
    {
      CollectedSnoc(items, i, currentYear);
      PausesUpToSnoc(items, i, currentYear);
      var rec := ItemRecord(items[i], currentYear);
      if rec.Some? {
        publications := publications + [rec.value];
        if i + 1 < |items| {
          pauses := pauses + [ItemPause];
        }
      }
      i := i + 1;
    }
    assert items[..|items|] == items;
  }

  /**
   * Only stubs that succeed are followed by a pause, each of `ItemPause`
   * seconds: one per successful stub before the last.
   */
  lemma {:induction false} PausesCountSuccesses(items: seq<Option<Filled>>, i: nat, currentYear: int)
    requires i < |items|
    ensures |PausesUpTo(items, i, currentYear)| == |Collected(items[..i], currentYear)|
    ensures forall j :: 0 <= j < |PausesUpTo(items, i, currentYear)| ==> PausesUpTo(items, i, currentYear)[j] == ItemPause
  {
    if i > 0 {
      PausesCountSuccesses(items, i - 1, currentYear);
      CollectedSnoc(items, i - 1, currentYear);
    }
  }

  lemma ItemPausesShape(items: seq<Option<Filled>>, currentYear: int)
    requires items != []
    ensures var p := ItemPauses(items, currentYear);
            && |p| == |Collected(items[..|items| - 1], currentYear)|
            && forall j :: 0 <= j < |p| ==> p[j] == ItemPause
  {
    PausesCountSuccesses(items, |items| - 1, currentYear);
  }

  // ---------------------------------------------------------------- attempts

  /** The record that stands in for the whole list when every attempt fails. */
  function Placeholder(currentYear: int): Publication {
    Publication(PlaceholderTitle, PlaceholderAuthor, "", "", 0, currentYear, ProfileUrl)
  }

  /** The records attempt `a` collects; none unless the profile listed its stubs. */
  function AttemptRecords(a: Attempt, currentYear: int): seq<Publication> {
    if a.Listed? then Collected(a.items, currentYear) else []
  }

  /** The pauses of attempt `k`: the backoff once a proxy is registered, then those of its stubs. */
  function AttemptPauses(k: nat, a: Attempt, currentYear: int): seq<nat> {
    if a.ProxyUnavailable? then []
    else
      (if k > 0 then [BackoffUnit * k] else [])
      + (if a.Listed? then ItemPauses(a.items, currentYear) else [])
  }

  /**
   * The list returned by attempts `k` onwards, when every attempt before
   * `k` failed; attempt `i` collects `records(i)` and succeeds when that
   * is not empty.
   */
  function RunFrom(k: nat, maxAttempts: nat, records: nat -> seq<Publication>, currentYear: int): seq<Publication>
    requires k < maxAttempts
    decreases maxAttempts - k
  {
    if records(k) != [] then records(k)
    else if k == maxAttempts - 1 then [Placeholder(currentYear)]
    else RunFrom(k + 1, maxAttempts, records, currentYear)
  }

  /** The pauses of attempts `k` onwards; attempt `i` pauses `pauses(i)`. */
  function PausesFrom(k: nat, maxAttempts: nat, records: nat -> seq<Publication>, pauses: nat -> seq<nat>): seq<nat>
    requires k < maxAttempts
    decreases maxAttempts - k
  {
    pauses(k)
    + if records(k) != [] || k == maxAttempts - 1 then []
      else PausesFrom(k + 1, maxAttempts, records, pauses)
  }

  function RecordsOf(attempts: nat -> Attempt, currentYear: int): nat -> seq<Publication> {
    (k: nat) => AttemptRecords(attempts(k), currentYear)
  }

  function PausesOf(attempts: nat -> Attempt, currentYear: int): nat -> seq<nat> {
    (k: nat) => AttemptPauses(k, attempts(k), currentYear)
  }

  /** What `get_publications_with_retry` returns; `None` when no attempt is made. */
  function RetryResult(maxAttempts: int, attempts: nat -> Attempt, currentYear: int): Option<seq<Publication>> {
    if maxAttempts <= 0 then None else Some(RunFrom(0, maxAttempts, RecordsOf(attempts, currentYear), currentYear))
  }

  /** The sleeps of `get_publications_with_retry`, in order. */
  function RetryPauses(maxAttempts: int, attempts: nat -> Attempt, currentYear: int): seq<nat> {
    if maxAttempts <= 0 then []
    else PausesFrom(0, maxAttempts, RecordsOf(attempts, currentYear), PausesOf(attempts, currentYear))
  }

  /** `get_publications_with_retry`; the clock's year is `currentYear`. */
  method GetPublicationsWithRetry(maxAttempts: int, attempts: nat -> Attempt, currentYear: int)
    returns (result: Option<seq<Publication>>, pauses: seq<nat>)
    ensures result == RetryResult(maxAttempts, attempts, currentYear)
    ensures pauses == RetryPauses(maxAttempts, attempts, currentYear)
  {
    ghost var records, schedule := RecordsOf(attempts, currentYear), PausesOf(attempts, currentYear);
    result, pauses := None, [];
    var attempt := 0;
    while attempt < maxAttempts
      invariant 0 <= attempt
      invariant result == None
      invariant maxAttempts <= 0 ==> attempt == 0 && pauses == []
      invariant 0 < maxAttempts ==>
                  && attempt < maxAttempts
                  && RetryResult(maxAttempts, attempts, currentYear) == Some(RunFrom(attempt, maxAttempts, records, currentYear))
                  && RetryPauses(maxAttempts, attempts, currentYear) == pauses + PausesFrom(attempt, maxAttempts, records, schedule)
      decreases maxAttempts - attempt
    {
      ghost var before := pauses;
      var publications, attemptPauses := RunAttempt(attempt, attempts(attempt), currentYear);
      pauses := pauses + attemptPauses;
      assert attemptPauses == schedule(attempt);
      assert publications == records(attempt);
      if publications != [] {
        assert PausesFrom(attempt, maxAttempts, records, schedule) == schedule(attempt) + [];
        assert before + (schedule(attempt) + []) == pauses;
        result := Some(publications);
        return;
      }
      if attempt == maxAttempts - 1 {
        assert PausesFrom(attempt, maxAttempts, records, schedule) == schedule(attempt) + [];
        assert before + (schedule(attempt) + []) == pauses;
        result := Some([Placeholder(currentYear)]);
        return;
      }
      assert PausesFrom(attempt, maxAttempts, records, schedule)
          == schedule(attempt) + PausesFrom(attempt + 1, maxAttempts, records, schedule);
      ConcatAssoc(before, schedule(attempt), PausesFrom(attempt + 1, maxAttempts, records, schedule));
      attempt := attempt + 1;
    }
  }

  /** One attempt: the backoff once a proxy is registered, then the stub loop if the profile was listed. */
  method RunAttempt(attempt: nat, outcome: Attempt, currentYear: int)
    returns (publications: seq<Publication>, pauses: seq<nat>)
    ensures publications == AttemptRecords(outcome, currentYear)
    ensures pauses == AttemptPauses(attempt, outcome, currentYear)
  {
    publications, pauses := [], [];
    if !outcome.ProxyUnavailable? {
      if attempt > 0 {
        pauses := pauses + [BackoffUnit * attempt];
      }
      if outcome.Listed? {
        var itemPauses;
        publications, itemPauses := FetchItems(outcome.items, currentYear);
        pauses := pauses + itemPauses;
      }
    }
  }

  // ---------------------------------------------------------------- properties

  /** No record list is ever empty: a failing run ends in the placeholder. */
  lemma {:induction false} RunFromNonEmpty(k: nat, maxAttempts: nat, records: nat -> seq<Publication>, currentYear: int)
    requires k < maxAttempts
    requires forall i :: k <= i < maxAttempts ==> forall p :: p in records(i) ==> p.number == ""
    ensures RunFrom(k, maxAttempts, records, currentYear) != []
    ensures forall p :: p in RunFrom(k, maxAttempts, records, currentYear) ==> p.number == ""
    decreases maxAttempts - k
  {
    if records(k) == [] && k < maxAttempts - 1 {
      RunFromNonEmpty(k + 1, maxAttempts, records, currentYear);
    }
  }

  /**
   * A list comes back exactly when at least one attempt is allowed; it is
   * never empty, and every record in it has an empty `number`.
   */
  lemma RetryResultShape(maxAttempts: int, attempts: nat -> Attempt, currentYear: int)
    ensures RetryResult(maxAttempts, attempts, currentYear).None? <==> maxAttempts <= 0
    ensures RetryResult(maxAttempts, attempts, currentYear).Some? ==>
              var ps := RetryResult(maxAttempts, attempts, currentYear).value;
              ps != [] && forall p :: p in ps ==> p.number == ""
  {
    if maxAttempts > 0 {
      var records := RecordsOf(attempts, currentYear);
      forall i | 0 <= i < maxAttempts ensures forall p :: p in records(i) ==> p.number == "" {
        var rs := AttemptRecords(attempts(i), currentYear);
        assert records(i) == rs;
        forall p | p in rs ensures p.number == "" {
          var j :| 0 <= j < |rs| && rs[j] == p;
        }
      }
      RunFromNonEmpty(0, maxAttempts, records, currentYear);
    }
  }

  /**
   * The fetched records never show a number segment: in both renderers a
   * citation with a journal ends with that journal.
   */
  lemma RetryCitationsEndWithJournal(maxAttempts: int, attempts: nat -> Attempt, currentYear: int, year: int)
    requires RetryResult(maxAttempts, attempts, currentYear).Some?
    ensures forall p :: p in RetryResult(maxAttempts, attempts, currentYear).value && p.journal != "" ==>
              && EndsWith(HtmlCitation(p, year), ", <em>" + p.journal + "</em>")
              && EndsWith(MarkdownCitation(p), " *" + p.journal + "*")
  {
    RetryResultShape(maxAttempts, attempts, currentYear);
    forall p | p in RetryResult(maxAttempts, attempts, currentYear).value && p.journal != ""
      ensures EndsWith(HtmlCitation(p, year), ", <em>" + p.journal + "</em>")
      ensures EndsWith(MarkdownCitation(p), " *" + p.journal + "*")
    {
      assert p.(number := "") == p;
      HtmlCitationSegments(p, year, "");
      MarkdownCitationSegments(p, "");
    }
  }

  lemma {:induction false} RunFromFirstSuccess(j: nat, k: nat, maxAttempts: nat, records: nat -> seq<Publication>, currentYear: int)
    requires j <= k < maxAttempts
    requires forall i :: j <= i < k ==> records(i) == []
    requires records(k) != []
    ensures RunFrom(j, maxAttempts, records, currentYear) == records(k)
    decreases k - j
  {
    if j < k {
      RunFromFirstSuccess(j + 1, k, maxAttempts, records, currentYear);
    }
  }

  /** The run stops at the first attempt that yields records and returns those records. */
  lemma RetryFirstSuccess(maxAttempts: int, k: nat, attempts: nat -> Attempt, currentYear: int)
    requires k < maxAttempts
    requires forall i :: 0 <= i < k ==> AttemptRecords(attempts(i), currentYear) == []
    requires AttemptRecords(attempts(k), currentYear) != []
    ensures RetryResult(maxAttempts, attempts, currentYear) == Some(AttemptRecords(attempts(k), currentYear))
  {
    RunFromFirstSuccess(0, k, maxAttempts, RecordsOf(attempts, currentYear), currentYear);
  }

  lemma {:induction false} RunFromAllFail(k: nat, maxAttempts: nat, records: nat -> seq<Publication>, currentYear: int)
    requires k < maxAttempts
    requires forall i :: k <= i < maxAttempts ==> records(i) == []
    ensures RunFrom(k, maxAttempts, records, currentYear) == [Placeholder(currentYear)]
    decreases maxAttempts - k
  {
    if k < maxAttempts - 1 {
      RunFromAllFail(k + 1, maxAttempts, records, currentYear);
    }
  }

  /** When every attempt fails the result is the single placeholder, dated with the current year. */
  lemma RetryAllFail(maxAttempts: int, attempts: nat -> Attempt, currentYear: int)
    requires 0 < maxAttempts
    requires forall i :: 0 <= i < maxAttempts ==> AttemptRecords(attempts(i), currentYear) == []
    ensures RetryResult(maxAttempts, attempts, currentYear) == Some([Placeholder(currentYear)])
    ensures Placeholder(currentYear).title == "Publications temporarily unavailable"
    ensures Placeholder(currentYear).year == currentYear
  {
    RunFromAllFail(0, maxAttempts, RecordsOf(attempts, currentYear), currentYear);
  }

  /** The backoffs `180 * k` of the attempts `k` in `lo .. hi - 1`. */
  function Backoffs(lo: nat, hi: nat): (r: seq<nat>)
    requires lo <= hi
    ensures |r| == hi - lo
    ensures forall i :: 0 <= i < |r| ==> r[i] == BackoffUnit * (lo + i)
    decreases hi - lo
  {
    if lo == hi then [] else [BackoffUnit * lo] + Backoffs(lo + 1, hi)
  }

  lemma {:induction false} PausesFromBackoffsOnly(k: nat, maxAttempts: nat, records: nat -> seq<Publication>, pauses: nat -> seq<nat>)
    requires 0 < k < maxAttempts
    requires forall i :: k <= i < maxAttempts ==> records(i) == [] && pauses(i) == [BackoffUnit * i]
    ensures PausesFrom(k, maxAttempts, records, pauses) == Backoffs(k, maxAttempts)
    decreases maxAttempts - k
  {
    if k < maxAttempts - 1 {
      PausesFromBackoffsOnly(k + 1, maxAttempts, records, pauses);
    }
  }

  /**
   * When a proxy is found every time but every profile lookup fails, the
   * run waits 180, 360, ... seconds before attempts 1, 2, ..., and
   * nothing else.
   */
  lemma RetryBackoffSchedule(maxAttempts: int, attempts: nat -> Attempt, currentYear: int)
    requires 0 < maxAttempts
    requires forall i :: 0 <= i < maxAttempts ==> attempts(i) == LookupFailed
    ensures RetryPauses(maxAttempts, attempts, currentYear) == Backoffs(1, maxAttempts)
  {
    var records, pauses := RecordsOf(attempts, currentYear), PausesOf(attempts, currentYear);
    assert records(0) == [] && pauses(0) == [];
    if maxAttempts > 1 {
      forall i | 1 <= i < maxAttempts ensures records(i) == [] && pauses(i) == [BackoffUnit * i] {
        assert attempts(i) == LookupFailed;
      }
      PausesFromBackoffsOnly(1, maxAttempts, records, pauses);
    }
  }
}
