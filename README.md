# Publication, conference and software catalogue scripts, in Dafny

This project models the data-shaping part of the scripts behind a personal academic site:

- the publications page (`_scripts/update_publications.py`), with a name abbreviator, an author-list formatter, HTML and Markdown renderers, and the retry loop that fetches records from a scholarly-profile service;
- the conferences page (`_scripts/update_conferences.py`), with structured author names and the same two renderers;
- the software catalogue (`scripts/fetch_software.py`), which takes the owner and repository name from a URL path, builds a language breakdown in percent and assembles the catalogue records;
- the publication TOML builder (`scripts/fetch_pubs.py`), which normalises one record per publication stub.

Things outside the model come in as parameters:

- the network;
- the clock;
- the sleeps;
- `urlparse`;
- `quote_plus`.

For the network, the retry loop takes an oracle `attempts: nat -> Attempt`. Each attempt is one of:

- no proxy could be registered;
- the profile lookup failed;
- the profile listed its stubs, each either filled or raising while filling.

The software catalogue takes the results of the two GitHub calls as functions of owner and repository name. `build_toml` takes the already-filled records.

For the clock, the current year and the date text are parameters. The sleeps are returned, in order, as a sequence of pause lengths.

The modules:

- `Wrappers`: `Option`.
- `Text`: Python's `str.split(sep)`, `str.split()`, `strip`, `join`, slicing, `int()`, `str()` and `isdigit`.
- `Ordering`: the stable descending sort `sorted(..., reverse=True)`, filtering by key and grouping by key.
- `Scholar`: the shape of a filled record, plus `dict.get` and Python's `or`.
- `PublicationFormat`, `PublicationFetch`, `Conferences`, `Software`, `PubRecords`: the four scripts.

Python's loops are methods with loop invariants. Each is proved equal to a specification function, and the properties are lemmas about those functions.

Where the design description and the code disagree, the model follows the code. The description gives the example `"Skaza, Jonathan, and Doe, Jane M"` → `"<b>J Skaza</b>, JM Doe"`. But `format_authors` also splits every `" and "` part on commas (`_scripts/update_publications.py:50-51`). So the names reaching `format_name` are the bare pieces `Skaza`, `Jonathan`, `Doe` and `Jane M`, and the code produces `Skaza, Jonathan, Doe, J M`. `PublicationFormat.AuthorPiecesAreClean` states the general fact: no piece given to `format_name` contains a comma.

## Model

| member | source | states |
|---|---|---|
| PublicationFormat.Initials | _scripts/update_publications.py:31 | one initial per token, and initial i is the first character of token i |
| PublicationFormat.FormatNameKeepsShortNames | _scripts/update_publications.py:14-15 | an empty or comma-free name of fewer than two tokens comes back unchanged from both formatters |
| PublicationFormat.FormatNameWhitespaceRule | _scripts/update_publications.py:24-37 | a comma-free name of two or more tokens becomes the initials of all tokens but the last, one space, then the last token; it is in bold exactly when that text is an owner spelling |
| PublicationFormat.FormatNameIgnoresAfterSecondComma | _scripts/update_publications.py:18-21 | with a comma, the surname is the stripped text before the first comma and the given names the stripped text between the first and the second; anything after the second comma does not change the result |
| PublicationFormat.CommaNameRule | _scripts/update_publications.py:18-32 | `Last, Given` with one-token parts becomes the first letter of Given, one space, then Last |
| PublicationFormat.TwoTokenName | _scripts/update_publications.py:24-32 | `A C` becomes the first letter of A, one space, then C |
| PublicationFormat.ThreeTokenName | _scripts/update_publications.py:24-32 | `A B C` becomes the first letters of A and B, one space, then C |
| PublicationFormat.SelfIsBold | _scripts/update_publications.py:35-36 | an abbreviation that is `J Skaza` or `JS Skaza` is wrapped in `<b>` in HTML and `**` in Markdown |
| PublicationFormat.OwnerNameIsBold | _scripts/update_publications.py:24-36 | every `J… Skaza` spelling renders as `<b>J Skaza</b>` and `**J Skaza**` |
| PublicationFormat.OwnerNameWithMiddleIsBold | _scripts/update_publications.py:24-36 | every `J… S… Skaza` spelling renders as `<b>JS Skaza</b>` |
| PublicationFormat.OwnerCommaNameIsBold | _scripts/update_publications.py:18-36 | `Skaza, J…` renders as `<b>J Skaza</b>` |
| PublicationFormat.MarkdownMirrorsHtml | _scripts/update_publications.py:39-44 | when HTML bolds the name as `<b>s</b>`, Markdown gives `**s**`; otherwise the two formatters agree |
| PublicationFormat.MarkdownAsWrittenAgrees | _scripts/update_publications.py:41-44 | the code as written matches the corrected Markdown formatter on every name that is bolded or does not start with `<b>` |
| PublicationFormat.MarkdownAsWrittenMangles | _scripts/update_publications.py:42-43 | any one-token name starting with `<b>` comes back unchanged from `format_name`, but the code as written slices it into `**…**`, which differs from the corrected formatter |
| PublicationFormat.MarkdownAsWrittenManglesExample | _scripts/update_publications.py:42-43 | the author `<b>x` gives `****` as written and `<b>x` when corrected |
| PublicationFormat.FormatAuthors | _scripts/update_publications.py:46-68 | the loop builds exactly the `", "`-join of the formatted non-blank pieces of the split on `" and "` and then on `","`; Markdown uses the corrected name formatter |
| PublicationFormat.FormatNonBlank | _scripts/update_publications.py:54 | the comprehension keeps one formatted name per non-blank piece, in order |
| PublicationFormat.FormattedNamesAt | _scripts/update_publications.py:54 | the output has one name per non-blank piece, and name i is the formatter applied to non-blank piece i |
| PublicationFormat.NonBlankPieces | _scripts/update_publications.py:54 | every kept piece comes from the input and is not all whitespace |
| PublicationFormat.AuthorPiecesAreClean | _scripts/update_publications.py:49-51 | no piece passed to `format_name` contains a comma, and each is stripped |
| PublicationFormat.FormatNameOfClean | _scripts/update_publications.py:11-37 | a stripped, comma-free name formats to a stripped, comma-free name in both formats |
| PublicationFormat.AuthorsTextReadsBack | _scripts/update_publications.py:46-56 | the author text is empty when no piece is kept; otherwise splitting it on `","` and stripping recovers exactly the formatted names, so no final "and" is added |
| PublicationFormat.ReadBack | _scripts/update_publications.py:56 | a `", "`-join of stripped, comma-free names splits back into those names |
| PublicationFormat.AuthorsMarkdownMirrorsHtml | _scripts/update_publications.py:58-68 | with the corrected Markdown formatter, the two author lists have the same length; entry by entry they agree, except that a bolded name is `<b>s</b>` in one and `**s**` in the other |
| PublicationFormat.AuthorsMarkdownAsWrittenAgrees | _scripts/update_publications.py:41-44 | the Markdown author list the code as written produces equals the corrected one whenever no kept piece is an unbolded name starting with `<b>` |
| PublicationFormat.GenerateHtml | _scripts/update_publications.py:146-186 | the page is the `"\n"`-join of one block per distinct year, in descending order, followed by the footer |
| PublicationFormat.AppendYearBlocks | _scripts/update_publications.py:159-177 | the year loop appends exactly the blocks of the given years, each with that year's records in input order |
| PublicationFormat.NextYearBlock | _scripts/update_publications.py:160-177 | one pass of the year loop extends the blocks of the first i years to those of the first i+1 |
| PublicationFormat.AppendYearBlock | _scripts/update_publications.py:161-177 | one year appends its heading, the table opening, one row per record and the table closing |
| PublicationFormat.HtmlCitationSegments | _scripts/update_publications.py:169-173 | the HTML citation starts with the authors, the year and the linked title; with a journal it ends in `, <em>journal</em>`; setting the number changes the citation only by a final `, number`, and only when the journal and the number are both non-empty |
| PublicationFormat.CitationParts | _scripts/update_publications.py:170-173 | for both formats: the citation starts with its base, ends in the journal part when there is a journal, and gains `, number` exactly when the journal and the number are both non-empty |
| PublicationFormat.HtmlBlocksLength | _scripts/update_publications.py:159-177 | the blocks hold three lines per year plus one row per record grouped under those years |
| PublicationFormat.HtmlBlocksHeadings | _scripts/update_publications.py:161 | every year of the list has its heading among the blocks |
| PublicationFormat.YearBlockShape | _scripts/update_publications.py:161-177 | a year block is its heading followed by the table opening, the rows and the table closing |
| PublicationFormat.HtmlPageLayout | _scripts/update_publications.py:149-186 | the page has three lines per distinct year, one row per record and exactly one final line, the footer; every record's year has a heading |
| PublicationFormat.GenerateMarkdown | _scripts/update_publications.py:188-209 | the Markdown is the `"\n\n"`-join of the citations of the stably sorted records, plus `"\n"`; author names use the corrected Markdown formatter |
| PublicationFormat.MarkdownCitationSegments | _scripts/update_publications.py:200-204 | the Markdown citation starts with the authors, the year and the title; with a journal it ends in ` *journal*`; setting the number changes the citation only by a final `, number`, and only when the journal and the number are both non-empty |
| PublicationFormat.MarkdownPartsAt | _scripts/update_publications.py:195-206 | part i is the citation of record i |
| PublicationFormat.MarkdownPageLayout | _scripts/update_publications.py:193-209 | the records are sorted by non-increasing year, form a permutation of the input and keep input order within a year; there is one part per record; the text ends in `"\n"`, and no records give exactly `"\n"` |
| Ordering.GroupBy | _scripts/update_publications.py:149-157 | the grouping loop yields each distinct key once, in first-seen order, with exactly the records of that key in input order |
| Ordering.DescKeysStrictlyDescending | _scripts/update_publications.py:157 | the sorted keys strictly decrease and are exactly the keys present |
| Ordering.SortDescSortedPermutation | _scripts/update_publications.py:193 | `sorted(..., reverse=True)` gives a non-increasing permutation of its input |
| Ordering.SortDescStable | _scripts/update_publications.py:193 | elements with equal keys keep their input order |
| Ordering.SortDescDistinct | _scripts/update_publications.py:157 | sorting distinct keys keeps them distinct |
| Ordering.FilterHasKey | _scripts/update_publications.py:154 | a year's group holds only records of that year, each one drawn from the input |
| Ordering.GroupedIsPermutation | _scripts/update_publications.py:159-164 | grouping under keys that cover every record lists every record exactly once |
| Ordering.GroupedDescending | _scripts/update_publications.py:149-164 | the headings strictly decrease; every record's year is a heading and every heading is some record's year; each group holds only its own year; together the groups are a permutation of the records |
| Text.SplitJoin | _scripts/update_publications.py:50 | joining the pieces of `split(sep)` with `sep` gives back the string |
| Text.SplitOfJoin | _scripts/update_publications.py:56 | splitting a join of separator-free parts on the separator gives back the parts |
| Text.WordsOfJoin | _scripts/update_publications.py:28 | `" ".join(tokens).split()` gives back the tokens |
| Text.ParseIntOfIntToString | _scripts/update_publications.py:103 | `int(str(n))` is n |
| Text.ParseIntOfStripped | _scripts/update_publications.py:103 | `int()` gives the same result on a string and on its stripped form |
| Text.DigitsValueOfNatToString | scripts/fetch_pubs.py:56 | the decimal text of a natural number reads back as that number |
| PublicationFetch.RecordYearValues | _scripts/update_publications.py:103 | a missing `pub_year` gives the current year; a `pub_year` that is some integer written out, with any surrounding whitespace, gives that integer; a blank `pub_year` makes `int()` fail |
| PublicationFetch.RecordLink | _scripts/update_publications.py:107 | a link exists exactly when the record has `pub_url` or `author_pub_id`; `pub_url` wins when present; otherwise the link is the citation page of `author_pub_id` |
| PublicationFetch.RecordJournal | _scripts/update_publications.py:102 | the journal is one of the `journal` and `venue` values; it is empty exactly when both are empty or missing; a non-empty `journal` wins |
| PublicationFetch.ExtractRecord | _scripts/update_publications.py:97-117 | a record is produced exactly when the bib is present, the year parses and a link exists; it carries the title, authors, journal, year, link and citation count, with number `""` |
| PublicationFetch.Collected | _scripts/update_publications.py:94-120 | at most one record per stub, every record with number `""` |
| PublicationFetch.FetchItems | _scripts/update_publications.py:94-124 | the stub loop returns the records of the stubs that fill and extract, in stub order, and the pauses between them |
| PublicationFetch.PausesCountSuccesses | _scripts/update_publications.py:118-124 | every pause lasts 2 units, and before stub i there is one pause per successful earlier stub |
| PublicationFetch.ItemPausesShape | _scripts/update_publications.py:122-124 | a pause of 2 follows each successful stub except the last stub; failed stubs add none |
| PublicationFetch.RunAttempt | _scripts/update_publications.py:81-130 | one attempt returns its collected records and its pauses: none without a proxy; otherwise a backoff of 180·k for k > 0, then the stub pauses |
| PublicationFetch.GetPublicationsWithRetry | _scripts/update_publications.py:79-144 | the loop returns the first non-empty attempt's records, or the placeholder when every attempt fails, or nothing when no attempt is made; it returns the pauses in order |
| PublicationFetch.RunFromNonEmpty | _scripts/update_publications.py:126-144 | once an attempt is made, the result is never empty, and every record has number `""` |
| PublicationFetch.RetryResultShape | _scripts/update_publications.py:79-144 | no result exactly when `max_attempts <= 0`; otherwise a non-empty list whose records have number `""` |
| PublicationFetch.RetryCitationsEndWithJournal | _scripts/update_publications.py:113 | fetched records have no number, so every rendered citation of one with a journal ends with that journal, in HTML and in Markdown |
| PublicationFetch.RunFromFirstSuccess | _scripts/update_publications.py:126-128 | after failed attempts, the first attempt with records decides the result |
| PublicationFetch.RetryFirstSuccess | _scripts/update_publications.py:126-128 | when attempts 0..k-1 collect nothing and attempt k collects records, the result is attempt k's records |
| PublicationFetch.RunFromAllFail | _scripts/update_publications.py:134-144 | when every remaining attempt fails, the result is the single placeholder |
| PublicationFetch.RetryAllFail | _scripts/update_publications.py:134-144 | when every attempt fails, the result is exactly one placeholder, titled "Publications temporarily unavailable" and dated the current year |
| PublicationFetch.Backoffs | _scripts/update_publications.py:83-86 | the backoffs of attempts lo..hi-1, attempt k waiting 180·k |
| PublicationFetch.PausesFromBackoffsOnly | _scripts/update_publications.py:83-86 | attempts that only back off and fail produce exactly their backoffs |
| PublicationFetch.RetryBackoffSchedule | _scripts/update_publications.py:80-86 | when every profile lookup fails, the sleeps are 180, 360, …, 180·(max_attempts-1), and attempt 0 does not wait |
| Scholar.Or | scripts/fetch_pubs.py:41 | `a or b` is `a` when `a` is truthy and `b` otherwise, so it is truthy exactly when one of them is |
| Conferences.Initials | _scripts/update_conferences.py:9-11 | the initials are `first[0]` when `first` is non-empty, then `middle[0]` when `middle` is non-empty |
| Conferences.AuthorNameShape | _scripts/update_conferences.py:14 | the name is the initials (at most two), one space, then the surname |
| Conferences.FormatAuthorBoldIff | _scripts/update_conferences.py:17-18 | the HTML name starts with `<b>` if and only if the surname is `Skaza` |
| Conferences.AuthorMarkdownMirrorsHtml | _scripts/update_conferences.py:17-20 | on `Skaza` the HTML and Markdown names are the same text wrapped in `<b>` and `**`; otherwise both are the plain name |
| Conferences.FormatAuthorsList | _scripts/update_conferences.py:38-55 | the loop yields the `", "`-join of every author's name in order, with a missing key read as `''` |
| Conferences.FormattedAuthors | _scripts/update_conferences.py:41-50 | one formatted name per author |
| Conferences.FormattedAuthorsAt | _scripts/update_conferences.py:42-50 | name i is the formatted author i |
| Conferences.FormatEntryCommaFree | _scripts/update_conferences.py:43-50 | comma-free name parts give a comma-free formatted name |
| Conferences.AuthorsListReadsBack | _scripts/update_conferences.py:52-55 | with comma-free names, the list splits on `","` into the first name and then `" "` plus each later name; there is no `&` before the last author |
| Conferences.GenerateHtml | _scripts/update_conferences.py:57-98 | the page is the `"\n"`-join of one block per distinct date, descending, with no footer |
| Conferences.AppendDateBlocks | _scripts/update_conferences.py:70-90 | the date loop appends exactly the blocks of the given dates, each with that date's conferences in input order |
| Conferences.AppendDateBlock | _scripts/update_conferences.py:72-90 | one date appends its heading, the table opening, one row per conference and the table closing |
| Conferences.HtmlCitationFrame | _scripts/update_conferences.py:80-86 | the citation starts with the author list and the date, and always ends with `, <em>venue</em>, location` |
| Conferences.HtmlCitationPosterLink | _scripts/update_conferences.py:81-84 | a truthy poster link gives the citation of the same conference without a link whose title is the anchor to the poster; a falsy link (missing or empty) gives the same citation as none |
| Conferences.HtmlBlocksLength | _scripts/update_conferences.py:70-90 | three lines per date plus one row per grouped conference |
| Conferences.HtmlBlocksHeadings | _scripts/update_conferences.py:72 | every date of the list has its heading among the blocks |
| Conferences.DateBlockShape | _scripts/update_conferences.py:72-90 | a date block is its heading followed by the table opening, the rows and the table closing |
| Conferences.HtmlPageLayout | _scripts/update_conferences.py:60-98 | three lines per distinct date and one row per conference; the last line is the table closing, so there is no footer; the empty list gives `""` |
| Conferences.GenerateMarkdown | _scripts/update_conferences.py:100-117 | the `"\n\n"`-join of the fixed-pattern citations of the stably sorted conferences, plus `"\n"` |
| Conferences.MarkdownParts | _scripts/update_conferences.py:107-114 | one citation per conference |
| Conferences.MarkdownPartsAt | _scripts/update_conferences.py:107-114 | part i is the citation of conference i |
| Conferences.MarkdownPageLayout | _scripts/update_conferences.py:104-117 | the conferences are sorted by non-increasing date, form a permutation and keep input order within a date; there is one part each; the text ends in `"\n"`, and no conferences give exactly `"\n"` |
| Software.LeadingRun | scripts/fetch_software.py:11 | the length of the run of `c` that starts the string |
| Software.TrailingRun | scripts/fetch_software.py:11 | the length of the run of `c` that ends the string |
| Software.StripChar | scripts/fetch_software.py:11 | `strip('/')` is the input without its maximal leading run of `/` and its trailing run of `/`: it is the slice right after the leading run, everything after it is `/`, and it neither starts nor ends with `/`; it is empty exactly when the path is all slashes |
| Software.Segments | scripts/fetch_software.py:11 | the split of the stripped path gives at least one segment, none holding `/` |
| Software.StripOneEach | scripts/fetch_software.py:11 | stripping one leading and an optional trailing `/` recovers the inner path |
| Software.SplitTwo | scripts/fetch_software.py:11 | `owner/repo` splits on `/` into owner and repo |
| Software.SegmentsOfRepoPath | scripts/fetch_software.py:11 | `/owner/repo` with or without a final slash has the segments owner and repo |
| Software.RepoPathReadsBack | scripts/fetch_software.py:8-11 | on `/owner/repo[/]` the owner is the first segment and the repository name the last |
| Software.OneSegmentPath | scripts/fetch_software.py:65 | for a one-segment path the owner equals the repository name |
| Software.LanguagePercentages | scripts/fetch_software.py:29-36 | no breakdown exactly when the language map is empty or its byte total is 0 |
| Software.Shares | scripts/fetch_software.py:39-42 | one share per language, in the given order |
| Software.Share | scripts/fetch_software.py:40 | a share keeps its language and is not negative |
| Software.TotalSortDesc | scripts/fetch_software.py:34 | reordering the languages keeps the byte total |
| Software.SumShares | scripts/fetch_software.py:39-42 | the shares of all languages add up to their bytes over the total, times 100 |
| Software.SharesNonIncreasing | scripts/fetch_software.py:44-45 | shares of languages sorted by bytes do not increase |
| Software.LanguagePercentagesShape | scripts/fetch_software.py:39-45 | a breakdown has exactly one entry per language, each that language's share of the total; it is ordered by non-increasing percent and sums to 100 |
| Software.RepoRecord | scripts/fetch_software.py:71-86 | a record exists exactly when the description does; it carries the name, the original URL and the description; a `languages` table is attached exactly when the language data is non-empty |
| Software.Catalogue | scripts/fetch_software.py:63-88 | at most one record per URL |
| Software.ProcessRepository | scripts/fetch_software.py:64-86 | one URL gives the record built from the description and languages of its owner and name |
| Software.ProcessRepositories | scripts/fetch_software.py:62-88 | the loop builds exactly the catalogue of the URLs, in URL order |
| Software.CatalogueRecords | scripts/fetch_software.py:63-88 | every record comes from a listed URL whose description exists, named after that URL's path; conversely, every URL with a description has its record in the catalogue |
| PubRecords.OptValue | scripts/fetch_pubs.py:44-45 | a missing value becomes `None` and nothing else does |
| PubRecords.ScholarSearchUrl | scripts/fetch_pubs.py:14-16 | the search link is the Scholar search prefix followed by the quoted title |
| PubRecords.AuthorsOf | scripts/fetch_pubs.py:42 | one author per piece of the split on `" and "`, each piece stripped |
| PubRecords.AuthorsOfMissing | scripts/fetch_pubs.py:42 | a missing or empty author string gives `[""]` |
| PubRecords.AuthorsOfCover | scripts/fetch_pubs.py:42 | the pieces rejoined with `" and "` give the author string, and none is dropped |
| PubRecords.PubYearFallback | scripts/fetch_pubs.py:41 | `pub_year` when truthy, else `year` |
| PubRecords.JournalPriority | scripts/fetch_pubs.py:43 | the first truthy of journal, booktitle, venue and conference, in that order, is the journal |
| PubRecords.JournalNoneTruthy | scripts/fetch_pubs.py:43 | when none is truthy the journal is whatever `conference` holds, which is not truthy |
| PubRecords.UrlPriority | scripts/fetch_pubs.py:48-52 | `pub_url` when truthy, else `eprint_url` when truthy, else the search link; the link is never empty |
| PubRecords.YearCoercion | scripts/fetch_pubs.py:56 | the year becomes an integer exactly when its text is all digits; otherwise it stays as it was, and a missing year stays `None` |
| PubRecords.YearOfNumber | scripts/fetch_pubs.py:56 | a year written in decimal becomes that integer |
| PubRecords.RawEntry | scripts/fetch_pubs.py:54-62 | the entry has its seven fields |
| PubRecords.DropNone | scripts/fetch_pubs.py:64 | filtering never adds fields |
| PubRecords.DropNoneMembers | scripts/fetch_pubs.py:64 | a field survives the filter exactly when its value is not `None`, so empty strings are kept |
| PubRecords.DropNoneKeepsOrder | scripts/fetch_pubs.py:64 | surviving fields keep their relative order |
| PubRecords.DropNoneIdempotent | scripts/fetch_pubs.py:64 | filtering a second time changes nothing |
| PubRecords.DropNoneKeys | scripts/fetch_pubs.py:64 | with distinct keys, a key is in the result exactly when its value is not `None` |
| PubRecords.EntryFields | scripts/fetch_pubs.py:40-64 | an entry holds no `None`; it always holds the title, the author list and the link; it holds the year, journal, volume and abstract exactly when they exist |
| PubRecords.Metadata | scripts/fetch_pubs.py:25-31 | the metadata table has four keys, with source "Google Scholar" and the given scholar id |
| PubRecords.BuildToml | scripts/fetch_pubs.py:18-67 | fails exactly when some filled record lacks `bib`; otherwise gives the metadata and one entry per stub, in stub order, each the filtered entry of that stub |

## Left out

- Network calls become inputs: `scholarly.fill`, `search_author_id`, `ProxyGenerator` / `init_proxy` (`use_proxy`) and `requests.get`. The retry loop takes an oracle of attempt outcomes. The software catalogue takes functions of owner and repository name. `build_toml` takes the already-filled records.
- `time.sleep` becomes data: sleeps are recorded as a sequence of pause lengths and not performed.
- `datetime.now` becomes parameters: the current year, the footer's date text and the metadata timestamp are inputs.
- `print` and `sys.stderr` output is not modelled. The error messages on stderr have no effect on the results.
- File reads and writes, YAML and TOML loading, `tomli_w` serialisation and `tqdm` are not modelled. The model stops at the Python value that would be dumped.
- `Software.RepoRecord`: an all-zero byte map gives an `ordered` of `None`. The model keeps that as `None`. Whether the TOML writer would accept it is serialisation, which this model does not include.
- `urlparse` is not modelled. The path of each URL is given as a function `pathOf`.
- `quote_plus` is not modelled. It is an uninterpreted function parameter of `PubRecords.ScholarSearchUrl`.
- `Software.LanguagePercentages`: the percent is the exact fraction times 100 and is not `round(..., 2)` in floating point. The breakdown is sorted by byte count, which gives the same order as the exact percent, ties included. Languages whose rounded percents tie but whose byte counts differ would keep input order in the source. The model orders them by bytes.
- `Text.ParseInt`: `int()` and `isdigit` are modelled for ASCII digits, signs and surrounding whitespace only. Unicode digits and underscore separators are not modelled.
- `Text.IsSpace` follows Python's whitespace set for `strip()` and `split()` on the characters it lists.
- `PubRecords.BuildToml`: bib and record fields are modelled as strings. A `pub_year` that arrives as an integer, or any other non-string bib value, is not modelled. A stub whose `fill` raises is not modelled either: the exception would end `build_toml`. A record without `bib` gives `None`, in place of the source's `KeyError`.
- `Conferences.GenerateHtml`: a conference date is modelled as an integer. Dates of other YAML types, such as full dates or strings, are not modelled. A conference is assumed to carry `authors`, `title`, `venue` and `location`, where the source would raise `KeyError`. Author fields are strings, so a YAML `null` name part is not modelled.
- PublicationFormat.FormatAuthors: the Markdown list uses the corrected `format_name_markdown`, not the code as written. The two differ only on an unbolded name that starts with `<b>` (see Findings). `PublicationFormat.AuthorsMarkdownAsWrittenAgrees` proves they agree on every other author string.
- PublicationFormat.CitationMarkdown: renders authors with the corrected Markdown formatter, with the same gap as `FormatAuthors`.
- PublicationFormat.GenerateMarkdown: renders authors with the corrected Markdown formatter, with the same gap as `FormatAuthors`.
- PublicationFormat.AuthorsMarkdownMirrorsHtml: is stated for the corrected Markdown formatter. The code as written breaks it on an unbolded name that starts with `<b>`.
- PublicationFetch.GetPublicationsWithRetry: takes `max_attempts` as an argument. The source default of 5 is the constant `PublicationFetch.DefaultMaxAttempts`.
- `PublicationFetch.ExtractRecord`: the model distinguishes three exceptions inside the per-stub `try`: a missing `bib`, a failing `int()` and a missing `author_pub_id`. A stub whose `fill` raises is a `None` in the oracle. The loop skips every raising stub the same way.

## Findings

| source | as written | input that shows it | evidently intended | confidence | as-written member | corrected member |
|---|---|---|---|---|---|---|
| _scripts/update_publications.py:42-43 | `format_name_markdown` turns any result of `format_name` that starts with `<b>` into `**` + `formatted[3:-4]` + `**`, including a name that `format_name` returned unchanged | the one-token author `<b>x`: `format_name` returns `<b>x`, and the Markdown variant returns `****` | only names that `format_name` bolded get the Markdown bold; every other name is returned as `format_name` gives it | not executed | PublicationFormat.MarkdownAsWrittenManglesExample | PublicationFormat.MarkdownMirrorsHtml |
