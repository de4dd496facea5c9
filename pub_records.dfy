/**
 * The publication-record normaliser of `scripts/fetch_pubs.py`: every
 * filled record of the scholarly profile becomes one entry of the TOML
 * document, with a fallback year, a venue chosen from a priority chain, an
 * author list, the best available link and no field whose value is `None`.
 */
module PubRecords {
  import opened Wrappers
  import opened Text
  import opened Scholar

  /** The values an entry can hold: a string, an integer, a list of strings or `None`. */
  datatype Value = Str(s: string) | Int(n: int) | Strs(items: seq<string>) | Null

  /** The keys of an entry, in the order the source writes them. */
  datatype Key = Title | PubYear | Author | Journal | Volume | Abstract | Url

  /** The key's text in the TOML document. */
  function KeyName(k: Key): string {
    match k
    case Title => "title"
    case PubYear => "pub_year"
    case Author => "author"
    case Journal => "journal"
    case Volume => "volume"
    case Abstract => "abstract"
    case Url => "url"
  }

  /** An entry, as the ordered key/value pairs of a Python dict. */
  type Entry = seq<(Key, Value)>

  /** The document `build_toml` returns: its metadata table and its publications. */
  datatype TomlData = TomlData(metadata: seq<(string, string)>, publications: seq<Entry>)

  const SearchPrefix := "https://scholar.google.com/scholar?q="
  const Source := "Google Scholar"
  const Note := "Publications automatically fetched from Google Scholar profile"

  /** An optional string as a value: `None` stays `None`. */
  function OptValue(v: Option<string>): (r: Value)
    ensures r == Null <==> v.None?
  {
    if v.Some? then Str(v.value) else Null
  }

  /** The search link used when a record has no link of its own; `quotePlus` is URL quoting. */
  function ScholarSearchUrl(title: string, quotePlus: string -> string): (r: string)
    ensures StartsWith(r, SearchPrefix) && r[|SearchPrefix|..] == quotePlus(title)
  {
    SearchPrefix + quotePlus(title)
  }

  // ---------------------------------------------------------------- core fields

  function TitleOf(bib: map<string, string>): string {
    GetOr(bib, "title", "")
  }

  /** `bib.get("pub_year") or bib.get("year")`. */
  function PubYearOf(bib: map<string, string>): Option<string> {
    Or(Get(bib, "pub_year"), Get(bib, "year"))
  }

  /** `[a.strip() for a in bib.get(Author, "").split(" and ")]`. */
  function AuthorsOf(bib: map<string, string>): (r: seq<string>)
    ensures |r| == |Split(GetOr(bib, "author", ""), " and ")| >= 1
    ensures forall i :: 0 <= i < |r| ==> r[i] == Strip(Split(GetOr(bib, "author", ""), " and ")[i])
  {
    StripAll(Split(GetOr(bib, "author", ""), " and "))
  }

  const JournalKeys := ["journal", "booktitle", "venue", "conference"]

  /** `bib.get("journal") or bib.get("booktitle") or bib.get("venue") or bib.get("conference")`. */
  function JournalOf(bib: map<string, string>): Option<string> {
    Or(Or(Or(Get(bib, "journal"), Get(bib, "booktitle")), Get(bib, "venue")), Get(bib, "conference"))
  }

  /** `pub.get("pub_url") or pub.get("eprint_url") or scholar_search_url(title)`. */
  function UrlOf(fields: map<string, string>, title: string, quotePlus: string -> string): string {
    var link := Or(Get(fields, "pub_url"), Get(fields, "eprint_url"));
    if Truthy(link) then link.value else ScholarSearchUrl(title, quotePlus)
  }

  /** `int(pub_year) if str(pub_year).isdigit() else pub_year`; `str(None)` is not digits. */
  function YearValue(year: Option<string>): Value {
    if year.Some? && IsDigits(year.value) then Int(DigitsValue(year.value)) else OptValue(year)
  }

  /** The entry dict before filtering, in the source's key order. */
  function RawEntry(bib: map<string, string>, fields: map<string, string>, quotePlus: string -> string): (r: Entry)
    ensures |r| == 7
  {
    var title := TitleOf(bib);
    [(Title, Str(title)),
     (PubYear, YearValue(PubYearOf(bib))),
     (Author, Strs(AuthorsOf(bib))),
     (Journal, OptValue(JournalOf(bib))),
     (Volume, OptValue(Get(bib, "volume"))),
     (Abstract, OptValue(Get(bib, "abstract"))),
     (Url, Str(UrlOf(fields, title, quotePlus)))]
  }

  // ---------------------------------------------------------------- dropping None

  /** `{k: v for k, v in entry.items() if v is not None}`. */
  function DropNone(e: Entry): (r: Entry)
    ensures |r| <= |e|
  {
    if e == [] then []
    else if e[0].1 == Null then DropNone(e[1..])
    else [e[0]] + DropNone(e[1..])
  }

  /** Exactly the pairs whose value is not `None` are kept; an empty string is kept. */
  lemma {:induction false} DropNoneMembers(e: Entry)
    ensures forall p :: p in DropNone(e) <==> p in e && p.1 != Null
  {
    if e != [] {
      DropNoneMembers(e[1..]);
      assert e == [e[0]] + e[1..];
    }
  }

  /** The pairs of `e` that are kept, in their original order. */
  lemma {:induction false} DropNoneKeepsOrder(e: Entry, i: int, j: int)
    requires 0 <= i < j < |e| && e[i].1 != Null && e[j].1 != Null
    ensures exists a, b :: 0 <= a < b < |DropNone(e)| && DropNone(e)[a] == e[i] && DropNone(e)[b] == e[j]
  {
    var r := DropNone(e);
    if i == 0 {
      DropNoneMembers(e[1..]);
      assert e[j] in e[1..];
      assert e[j] in DropNone(e[1..]);
      var b :| 0 <= b < |DropNone(e[1..])| && DropNone(e[1..])[b] == e[j];
      assert r[0] == e[0] && r[b + 1] == e[j];
    } else {
      DropNoneKeepsOrder(e[1..], i - 1, j - 1);
      var a, b :| 0 <= a < b < |DropNone(e[1..])| && DropNone(e[1..])[a] == e[i] && DropNone(e[1..])[b] == e[j];
      if e[0].1 == Null {
        assert r[a] == e[i] && r[b] == e[j];
      } else {
        assert r[a + 1] == e[i] && r[b + 1] == e[j];
      }
    }
  }

  /** Filtering a second time changes nothing. */
  lemma {:induction false} DropNoneIdempotent(e: Entry)
    ensures DropNone(DropNone(e)) == DropNone(e)
  {
    if e != [] {
      DropNoneIdempotent(e[1..]);
      if e[0].1 != Null {
        assert ([e[0]] + DropNone(e[1..]))[1..] == DropNone(e[1..]);
      }
    }
  }

  /** The entry of one filled record. */
  function EntryOf(bib: map<string, string>, fields: map<string, string>, quotePlus: string -> string): Entry {
    DropNone(RawEntry(bib, fields, quotePlus))
  }

  /** Whether an entry holds key `k`. */
  predicate HasKey(e: Entry, k: Key) {
    exists i :: 0 <= i < |e| && e[i].0 == k
  }

  /**
   * What one entry holds: no `None` value; title, author list and link
   * always; each optional field exactly when its value is not `None`
   * (an empty string is kept).
   */
  lemma EntryFields(bib: map<string, string>, fields: map<string, string>, quotePlus: string -> string)
    ensures var e := EntryOf(bib, fields, quotePlus);
      && (forall i :: 0 <= i < |e| ==> e[i].1 != Null)
      && (Title, Str(TitleOf(bib))) in e
      && (Author, Strs(AuthorsOf(bib))) in e
      && (Url, Str(UrlOf(fields, TitleOf(bib), quotePlus))) in e
      && (HasKey(e, PubYear) <==> PubYearOf(bib).Some?)
      && (HasKey(e, Journal) <==> JournalOf(bib).Some?)
      && (HasKey(e, Volume) <==> "volume" in bib)
      && (HasKey(e, Abstract) <==> "abstract" in bib)
  {
    var title := TitleOf(bib);
    var year, authors, journal := YearValue(PubYearOf(bib)), Strs(AuthorsOf(bib)), OptValue(JournalOf(bib));
    var volume, summary, url := OptValue(Get(bib, "volume")), OptValue(Get(bib, "abstract")), Str(UrlOf(fields, title, quotePlus));
    assert RawEntry(bib, fields, quotePlus) == Seven(Str(title), year, authors, journal, volume, summary, url);
    SevenPresent(Str(title), year, authors, journal, volume, summary, url);
    SevenOptional(Str(title), year, authors, journal, volume, summary, url);
  }

  /** The slots of the raw entry, for any values in them. */
  function Seven(title: Value, year: Value, authors: Value, journal: Value, volume: Value, summary: Value, url: Value): (r: Entry)
    ensures DistinctKeys(r) && |r| == 7
    ensures r[0] == (Title, title) && r[1] == (PubYear, year) && r[2] == (Author, authors)
    ensures r[3] == (Journal, journal) && r[4] == (Volume, volume) && r[5] == (Abstract, summary) && r[6] == (Url, url)
  {
    [(Title, title), (PubYear, year), (Author, authors), (Journal, journal), (Volume, volume), (Abstract, summary), (Url, url)]
  }

  /** The values that are never `None` survive the filter, and nothing `None` does. */
  lemma SevenPresent(title: Value, year: Value, authors: Value, journal: Value, volume: Value, summary: Value, url: Value)
    requires title != Null && authors != Null && url != Null
    ensures var e := DropNone(Seven(title, year, authors, journal, volume, summary, url));
      && (forall i :: 0 <= i < |e| ==> e[i].1 != Null)
      && (Title, title) in e && (Author, authors) in e && (Url, url) in e
  {
    var raw := Seven(title, year, authors, journal, volume, summary, url);
    var e := DropNone(raw);
    DropNoneMembers(raw);
    assert raw[0] in raw && raw[2] in raw && raw[6] in raw;
    forall i | 0 <= i < |e| ensures e[i].1 != Null {
      assert e[i] in e;
    }
  }

  /** Each optional slot survives exactly when its value is not `None`. */
  lemma SevenOptional(title: Value, year: Value, authors: Value, journal: Value, volume: Value, summary: Value, url: Value)
    ensures var e := DropNone(Seven(title, year, authors, journal, volume, summary, url));
      && (HasKey(e, PubYear) <==> year != Null)
      && (HasKey(e, Journal) <==> journal != Null)
      && (HasKey(e, Volume) <==> volume != Null)
      && (HasKey(e, Abstract) <==> summary != Null)
  {
    var raw := Seven(title, year, authors, journal, volume, summary, url);
    DropNoneKeys(raw);
    assert raw[1].0 == PubYear && raw[3].0 == Journal && raw[4].0 == Volume && raw[5].0 == Abstract;
  }

  /** Whether no key occurs twice, as in a Python dict. */
  predicate DistinctKeys(e: Entry) {
    forall i, j :: 0 <= i < j < |e| ==> e[i].0 != e[j].0
  }

  /** With distinct keys, a key survives the filter exactly when its value is not `None`. */
  lemma DropNoneKeys(raw: Entry)
    requires DistinctKeys(raw)
    ensures forall n :: 0 <= n < |raw| ==> (HasKey(DropNone(raw), raw[n].0) <==> raw[n].1 != Null)
  {
    var e := DropNone(raw);
    DropNoneMembers(raw);
    forall n | 0 <= n < |raw| ensures HasKey(e, raw[n].0) <==> raw[n].1 != Null {
      if raw[n].1 != Null {
        assert raw[n] in e;
      }
      if HasKey(e, raw[n].0) {
        var i :| 0 <= i < |e| && e[i].0 == raw[n].0;
        assert e[i] in e;
        var m :| 0 <= m < |raw| && raw[m] == e[i];
        assert m == n;
      }
    }
  }

  /** An absent author string gives the single empty author `[""]`. */
  lemma AuthorsOfMissing(bib: map<string, string>)
    requires GetOr(bib, "author", "") == ""
    ensures AuthorsOf(bib) == [""]
  {
    assert Split("", " and ") == [""];
  }

  /** Rejoining the unstripped pieces gives the author string back; nothing is dropped. */
  lemma AuthorsOfCover(bib: map<string, string>)
    ensures Join(" and ", Split(GetOr(bib, "author", ""), " and ")) == GetOr(bib, "author", "")
    ensures |AuthorsOf(bib)| == |Split(GetOr(bib, "author", ""), " and ")|
  {
    SplitJoin(GetOr(bib, "author", ""), " and ");
  }

  /** The year is `pub_year` when that is truthy and `year` otherwise. */
  lemma PubYearFallback(bib: map<string, string>)
    ensures "pub_year" in bib && bib["pub_year"] != "" ==> PubYearOf(bib) == Some(bib["pub_year"])
    ensures !("pub_year" in bib && bib["pub_year"] != "") ==> PubYearOf(bib) == Get(bib, "year")
  {
  }

  /**
   * The venue is the first truthy value among journal, booktitle, venue and
   * conference; when none is truthy, it is whatever `conference` holds.
   */
  lemma JournalPriority(bib: map<string, string>, n: int)
    requires 0 <= n < |JournalKeys|
    requires Truthy(Get(bib, JournalKeys[n]))
    requires forall m :: 0 <= m < n ==> !Truthy(Get(bib, JournalKeys[m]))
    ensures JournalOf(bib) == Get(bib, JournalKeys[n])
  {
    if n > 0 { assert !Truthy(Get(bib, JournalKeys[0])); }
    if n > 1 { assert !Truthy(Get(bib, JournalKeys[1])); }
    if n > 2 { assert !Truthy(Get(bib, JournalKeys[2])); }
  }

  lemma JournalNoneTruthy(bib: map<string, string>)
    requires forall m :: 0 <= m < |JournalKeys| ==> !Truthy(Get(bib, JournalKeys[m]))
    ensures JournalOf(bib) == Get(bib, "conference")
    ensures !Truthy(JournalOf(bib))
  {
    assert !Truthy(Get(bib, JournalKeys[0]));
    assert !Truthy(Get(bib, JournalKeys[1]));
    assert !Truthy(Get(bib, JournalKeys[2]));
    assert !Truthy(Get(bib, JournalKeys[3]));
  }

  /** The link is `pub_url` if truthy, else `eprint_url` if truthy, else the search link; never empty-handed. */
  lemma UrlPriority(fields: map<string, string>, title: string, quotePlus: string -> string)
    ensures Truthy(Get(fields, "pub_url")) ==> UrlOf(fields, title, quotePlus) == fields["pub_url"]
    ensures !Truthy(Get(fields, "pub_url")) && Truthy(Get(fields, "eprint_url")) ==>
      UrlOf(fields, title, quotePlus) == fields["eprint_url"]
    ensures !Truthy(Get(fields, "pub_url")) && !Truthy(Get(fields, "eprint_url")) ==>
      UrlOf(fields, title, quotePlus) == ScholarSearchUrl(title, quotePlus)
    ensures UrlOf(fields, title, quotePlus) != ""
  {
  }

  /**
   * The year becomes an integer exactly when its text is all digits, and
   * that integer is the text's decimal value; any other text is kept as it is.
   */
  lemma YearCoercion(s: string)
    ensures YearValue(Some(s)).Int? <==> IsDigits(s)
    ensures !IsDigits(s) ==> YearValue(Some(s)) == Str(s)
    ensures YearValue(None) == Null
  {
  }

  lemma YearOfNumber(n: nat)
    ensures YearValue(Some(NatToString(n))) == Int(n)
  {
    DigitsValueOfNatToString(n);
  }

  // ---------------------------------------------------------------- the document

  /** The metadata table: fetch time, source, profile id and a fixed note. */
  function Metadata(scholarId: string, lastUpdated: string): (r: seq<(string, string)>)
    ensures |r| == 4 && r[1] == ("source", Source) && r[2] == ("scholar_id", scholarId)
  {
    [("last_updated", lastUpdated), ("source", Source), ("scholar_id", scholarId), ("note", Note)]
  }

  /** Whether some record lacks its `bib` dict: `pub["bib"]` then raises and nothing is built. */
  predicate SomeLacksBib(pubs: seq<Filled>) {
    exists i :: 0 <= i < |pubs| && pubs[i].bib.None?
  }

  /**
   * `build_toml` over the filled records `pubs` of the profile: `None` when a
   * record has no `bib`; otherwise one entry per record, in record order.
   */
  method BuildToml(scholarId: string, lastUpdated: string, pubs: seq<Filled>, quotePlus: string -> string)
    returns (data: Option<TomlData>)
    ensures data.None? <==> SomeLacksBib(pubs)
    ensures data.Some? ==> data.value.metadata == Metadata(scholarId, lastUpdated)
    ensures data.Some? ==> |data.value.publications| == |pubs|
    ensures data.Some? ==> forall i :: 0 <= i < |pubs| ==>
      pubs[i].bib.Some? && data.value.publications[i] == EntryOf(pubs[i].bib.value, pubs[i].fields, quotePlus)
  {
    var publications: seq<Entry> := [];
    for i := 0 to |pubs|
      invariant |publications| == i
      invariant forall j :: 0 <= j < i ==>
        pubs[j].bib.Some? && publications[j] == EntryOf(pubs[j].bib.value, pubs[j].fields, quotePlus)
    {
      var pub := pubs[i];
      if pub.bib.None? {
        return None;
      }
      var entry := RawEntry(pub.bib.value, pub.fields, quotePlus);
      publications := publications + [DropNone(entry)];
    }
    data := Some(TomlData(Metadata(scholarId, lastUpdated), publications));
  }
}
