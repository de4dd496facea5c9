/**
 * The conference list of _scripts/update_conferences.py: authors given as
 * structured first, middle and last names, abbreviated to initials with
 * the site owner's surname in bold, a date-grouped HTML fragment and the
 * CV Markdown fragment.
 *
 * A conference's `date` is modelled as an integer (the year the data
 * gives); its heading is that number written out.
 */
module Conferences {
  import opened Wrappers
  import opened Text
  import opened Ordering
  import opened Scholar
  import PublicationFormat

  /** One author entry: a dict that may hold `first`, `middle` and `last`. */
  type AuthorEntry = map<string, string>

  datatype Conference = Conference(
    authors: seq<AuthorEntry>,
    title: string,
    venue: string,
    location: string,
    date: int,
    posterLink: Option<string>)

  function DateOf(c: Conference): int { c.date }

  const OwnerSurname := "Skaza"
  const TableOpen := "<table class=\"conference-table\"><tbody>"

  // ---------------------------------------------------------------- one author

  /** The first letter of `first` when it is not empty, then that of `middle` when it is not empty. */
  function Initials(first: string, middle: string): (r: string)
    ensures |r| == (if first != "" then 1 else 0) + (if middle != "" then 1 else 0)
    ensures first != "" ==> r[0] == first[0]
    ensures middle != "" ==> r[|r| - 1] == middle[0]
  {
    (if first != "" then [first[0]] else []) + (if middle != "" then [middle[0]] else [])
  }

  /** `f"{initials} {last}"`. */
  function AuthorName(first: string, middle: string, last: string): string {
    Initials(first, middle) + " " + last
  }

  /** `format_author`. */
  function FormatAuthor(first: string, middle: string, last: string): string {
    var name := AuthorName(first, middle, last);
    if last == OwnerSurname then "<b>" + name + "</b>" else name
  }

  /** `format_author_markdown`. */
  function FormatAuthorMarkdown(first: string, middle: string, last: string): string {
    var name := AuthorName(first, middle, last);
    if last == OwnerSurname then "**" + name + "**" else name
  }

  /** The abbreviated name holds the initials, one space, then the surname. */
  lemma AuthorNameShape(first: string, middle: string, last: string)
    ensures var n := AuthorName(first, middle, last);
            var k := |Initials(first, middle)|;
            && k <= 2
            && |n| == k + 1 + |last|
            && n[k] == ' '
            && n[k + 1..] == last
  {
  }

  /**
   * The HTML name is bold exactly when the surname is the owner's: an
   * unbolded name has a space among its first three characters, so it
   * never starts with `<b>`.
   */
  lemma FormatAuthorBoldIff(first: string, middle: string, last: string)
    ensures StartsWith(FormatAuthor(first, middle, last), "<b>") <==> last == OwnerSurname
  {
    var n := AuthorName(first, middle, last);
    var k := |Initials(first, middle)|;
    assert n[k] == ' ';
  }

  /** Both variants carry the same name; only the bold markup differs. */
  lemma AuthorMarkdownMirrorsHtml(first: string, middle: string, last: string)
    ensures var n := AuthorName(first, middle, last);
            && (last == OwnerSurname ==>
                  FormatAuthor(first, middle, last) == "<b>" + n + "</b>"
                  && FormatAuthorMarkdown(first, middle, last) == "**" + n + "**")
            && (last != OwnerSurname ==>
                  FormatAuthorMarkdown(first, middle, last) == FormatAuthor(first, middle, last) == n)
  {
  }

  // ---------------------------------------------------------------- author list

  /** One entry of `format_authors_list`, missing names read as `''`. */
  function FormatEntry(a: AuthorEntry, forMarkdown: bool): string {
    var first, middle, last := GetOr(a, "first", ""), GetOr(a, "middle", ""), GetOr(a, "last", "");
    if forMarkdown then FormatAuthorMarkdown(first, middle, last) else FormatAuthor(first, middle, last)
  }

  function FormattedAuthors(authors: seq<AuthorEntry>, forMarkdown: bool): (r: seq<string>)
    ensures |r| == |authors|
    decreases |authors|
  {
    if authors == [] then []
    else FormattedAuthors(authors[..|authors| - 1], forMarkdown) + [FormatEntry(authors[|authors| - 1], forMarkdown)]
  }

  /** The text `format_authors_list` returns. */
  function AuthorsListText(authors: seq<AuthorEntry>, forMarkdown: bool): string {
    Join(", ", FormattedAuthors(authors, forMarkdown))
  }

  lemma FormattedAuthorsSnoc(authors: seq<AuthorEntry>, i: int, forMarkdown: bool)
    requires 0 <= i < |authors|
    ensures FormattedAuthors(authors[..i + 1], forMarkdown)
         == FormattedAuthors(authors[..i], forMarkdown) + [FormatEntry(authors[i], forMarkdown)]
  {
    assert authors[..i + 1][..i] == authors[..i];
  }

  /** `format_authors_list`. */
  method FormatAuthorsList(authors: seq<AuthorEntry>, forMarkdown: bool) returns (r: string)
    ensures r == AuthorsListText(authors, forMarkdown)
  {
    var formattedAuthors: seq<string> := [];
    var i := 0;
    while i < |authors|
      invariant 0 <= i <= |authors|
      invariant formattedAuthors == FormattedAuthors(authors[..i], forMarkdown)
    {
      var author := authors[i];
      var first, middle, last := GetOr(author, "first", ""), GetOr(author, "middle", ""), GetOr(author, "last", "");
      FormattedAuthorsSnoc(authors, i, forMarkdown);
      if forMarkdown {
        formattedAuthors := formattedAuthors + [FormatAuthorMarkdown(first, middle, last)];
      } else {
        formattedAuthors := formattedAuthors + [FormatAuthor(first, middle, last)];
      }
      i := i + 1;
    }
    assert authors[..|authors|] == authors;
    r := Join(", ", formattedAuthors);
  }

  /** The i-th name of the list is the i-th author, formatted. */
  lemma {:induction false} FormattedAuthorsAt(authors: seq<AuthorEntry>, forMarkdown: bool, i: int)
    requires 0 <= i < |authors|
    ensures FormattedAuthors(authors, forMarkdown)[i] == FormatEntry(authors[i], forMarkdown)
    decreases |authors|
  {
    if i < |authors| - 1 {
      FormattedAuthorsAt(authors[..|authors| - 1], forMarkdown, i);
    }
  }

  /** No comma in any name part means no comma in the formatted name. */
  lemma FormatEntryCommaFree(a: AuthorEntry, forMarkdown: bool)
    requires forall k :: k in a ==> ',' !in a[k]
    ensures ',' !in FormatEntry(a, forMarkdown)
  {
    var first, middle, last := GetOr(a, "first", ""), GetOr(a, "middle", ""), GetOr(a, "last", "");
    var ini := Initials(first, middle);
    assert forall c :: c in ini ==> c in first || c in middle;
  }

  /**
   * When no name part holds a comma, splitting the list on commas gives
   * back one piece per author, in order: the names are joined by ", "
   * alone, with no "&" before the last.
   */
  lemma AuthorsListReadsBack(authors: seq<AuthorEntry>, forMarkdown: bool)
    requires authors != []
    requires forall i, k :: 0 <= i < |authors| && k in authors[i] ==> ',' !in authors[i][k]
    ensures var fs := FormattedAuthors(authors, forMarkdown);
            && |fs| == |authors|
            && (forall i :: 0 <= i < |authors| ==> fs[i] == FormatEntry(authors[i], forMarkdown))
            && Split(AuthorsListText(authors, forMarkdown), ",") == [fs[0]] + PrefixEach(" ", fs[1..])
  {
    var fs := FormattedAuthors(authors, forMarkdown);
    forall i | 0 <= i < |authors| ensures fs[i] == FormatEntry(authors[i], forMarkdown) && ',' !in fs[i] {
      FormattedAuthorsAt(authors, forMarkdown, i);
      FormatEntryCommaFree(authors[i], forMarkdown);
    }
    SplitOfCommaJoin(fs);
  }

  // ---------------------------------------------------------------- HTML

  /** One HTML citation: authors, date, the title (linked when there is a poster), venue and location. */
  function HtmlCitation(c: Conference): string {
    AuthorsListText(c.authors, false) + " (" + IntToString(c.date) + ")" + TitlePart(c.posterLink, c.title)
    + ", <em>" + c.venue + "</em>, " + c.location
  }

  /** The title, inside an anchor to the poster when there is a truthy poster link. */
  function TitlePart(posterLink: Option<string>, title: string): string {
    if Truthy(posterLink) then " <a href=\"" + posterLink.value + "\">" + title + "</a>" else " " + title
  }

  /** The anchor that links `title` to `link`. */
  function Anchor(link: string, title: string): string {
    "<a href=\"" + link + "\">" + title + "</a>"
  }

  function HtmlRow(c: Conference): string {
    "<tr><td>" + HtmlCitation(c) + "</td></tr>"
  }

  function HtmlRows(group: seq<Conference>): (r: seq<string>)
    ensures |r| == |group|
    decreases |group|
  {
    if group == [] then []
    else HtmlRows(group[..|group| - 1]) + [HtmlRow(group[|group| - 1])]
  }

  /** The heading, the table and the rows of one date. */
  function DateBlock(date: int, group: seq<Conference>): seq<string> {
    [PublicationFormat.Heading(date), TableOpen] + HtmlRows(group) + [PublicationFormat.TableClose]
  }

  /** The blocks of the dates `dates`, each with the conferences of that date in input order. */
  function HtmlBlocks(dates: seq<int>, confs: seq<Conference>): seq<string>
    decreases |dates|
  {
    if dates == [] then []
    else
      var d := dates[|dates| - 1];
      HtmlBlocks(dates[..|dates| - 1], confs) + DateBlock(d, Filter(confs, DateOf, d))
  }

  /** The parts `generate_html` joins: the date blocks, newest first, and no footer. */
  function HtmlParts(confs: seq<Conference>): seq<string> {
    HtmlBlocks(DescKeys(confs, DateOf), confs)
  }

  /** `generate_html`. */
  method GenerateHtml(conferences: seq<Conference>) returns (html: string)
    ensures html == Join("\n", HtmlParts(conferences))
  {
    var confsByYear, firstSeen := GroupBy(conferences, DateOf);
    var years := SortDesc(firstSeen, Id);
    DescKeysStrictlyDescending(conferences, DateOf);
    assert years == DescKeys(conferences, DateOf);
    var htmlParts := AppendDateBlocks([], years, confsByYear, conferences);
    assert htmlParts == HtmlParts(conferences);
    html := Join("\n", htmlParts);
  }

  lemma HtmlBlocksSnoc(dates: seq<int>, i: int, confs: seq<Conference>)
    requires 0 <= i < |dates|
    ensures HtmlBlocks(dates[..i + 1], confs)
         == HtmlBlocks(dates[..i], confs) + DateBlock(dates[i], Filter(confs, DateOf, dates[i]))
  {
    assert dates[..i + 1][..i] == dates[..i];
  }

  /** The date loop of `generate_html`. */
  method AppendDateBlocks(parts: seq<string>, dates: seq<int>, confsByYear: map<int, seq<Conference>>,
                          confs: seq<Conference>) returns (r: seq<string>)
    requires forall d :: d in dates ==> d in confsByYear && confsByYear[d] == Filter(confs, DateOf, d)
    ensures r == parts + HtmlBlocks(dates, confs)
  {
    var blocks: seq<string> := [];
    var i := 0;
    while i < |dates|
      invariant 0 <= i <= |dates|
      invariant blocks == HtmlBlocks(dates[..i], confs)
    {
      var date := dates[i];
      assert date in dates;
      HtmlBlocksSnoc(dates, i, confs);
      blocks := AppendDateBlock(blocks, date, confsByYear[date]);
      i := i + 1;
    }
    assert dates[..|dates|] == dates;
    r := parts + blocks;
  }

  lemma HtmlRowsSnoc(group: seq<Conference>, j: int)
    requires 0 <= j < |group|
    ensures HtmlRows(group[..j + 1]) == HtmlRows(group[..j]) + [HtmlRow(group[j])]
  {
    assert group[..j + 1][..j] == group[..j];
  }

  /** The body of the date loop: heading, table and one row per conference. */
  method AppendDateBlock(parts: seq<string>, date: int, group: seq<Conference>) returns (r: seq<string>)
    ensures r == parts + DateBlock(date, group)
  {
    var rows: seq<string> := [];
    var j := 0;
    while j < |group|
      invariant 0 <= j <= |group|
      invariant rows == HtmlRows(group[..j])
    {
      var citation := CitationHtml(group[j]);
      HtmlRowsSnoc(group, j);
      rows := rows + ["<tr><td>" + citation + "</td></tr>"];
      j := j + 1;
    }
    assert group[..|group|] == group;
    r := parts + ([PublicationFormat.Heading(date), TableOpen] + rows + [PublicationFormat.TableClose]);
  }

  /** The citation that `generate_html` builds for one conference. */
  method CitationHtml(conf: Conference) returns (citation: string)
    ensures citation == HtmlCitation(conf)
  {
    var authorsStr := FormatAuthorsList(conf.authors, false);
    citation := authorsStr + " (" + IntToString(conf.date) + ")";
    if conf.posterLink.Some? && conf.posterLink.value != "" {
      var linked := " <a href=\"" + conf.posterLink.value + "\">" + conf.title + "</a>";
      citation := citation + linked;
    } else {
      var plain := " " + conf.title;
      citation := citation + plain;
    }
    citation := citation + ", <em>" + conf.venue + "</em>, " + conf.location;
  }

  /** The HTML citation opens with the authors and the date and always ends with the venue and the location. */
  lemma HtmlCitationFrame(c: Conference)
    ensures StartsWith(HtmlCitation(c), AuthorsListText(c.authors, false) + " (" + IntToString(c.date) + ")")
    ensures EndsWith(HtmlCitation(c), ", <em>" + c.venue + "</em>, " + c.location)
  {
    var head := AuthorsListText(c.authors, false) + " (" + IntToString(c.date) + ")";
    var mid := TitlePart(c.posterLink, c.title);
    var tail := ", <em>" + c.venue + "</em>, " + c.location;
    assert HtmlCitation(c) == head + mid + tail;
    assert head + mid + tail == head + (mid + tail);
    ConcatEnds(head, mid + tail);
    ConcatEnds(head + mid, tail);
  }

  /**
   * A truthy poster link puts the title inside an anchor and changes
   * nothing else; a falsy one is as good as none.
   */
  lemma HtmlCitationPosterLink(c: Conference)
    ensures !Truthy(c.posterLink) ==> HtmlCitation(c) == HtmlCitation(c.(posterLink := None))
    ensures Truthy(c.posterLink) ==>
              HtmlCitation(c) == HtmlCitation(c.(posterLink := None, title := Anchor(c.posterLink.value, c.title)))
  {
    var head := AuthorsListText(c.authors, false) + " (" + IntToString(c.date) + ")";
    if Truthy(c.posterLink) {
      var d := c.(posterLink := None, title := Anchor(c.posterLink.value, c.title));
      assert TitlePart(c.posterLink, c.title) == " " + Anchor(c.posterLink.value, c.title) == TitlePart(d.posterLink, d.title);
      assert HtmlCitation(d) == head + TitlePart(d.posterLink, d.title) + ", <em>" + c.venue + "</em>, " + c.location;
    } else {
      var d := c.(posterLink := None);
      assert TitlePart(c.posterLink, c.title) == TitlePart(d.posterLink, d.title);
      assert HtmlCitation(d) == head + TitlePart(d.posterLink, d.title) + ", <em>" + c.venue + "</em>, " + c.location;
    }
  }

  /** The date blocks have three parts per date and one row per conference. */
  lemma {:induction false} HtmlBlocksLength(dates: seq<int>, confs: seq<Conference>)
    ensures |HtmlBlocks(dates, confs)| == 3 * |dates| + |Grouped(dates, confs, DateOf)|
    decreases |dates|
  {
    if dates != [] {
      var init, d := dates[..|dates| - 1], dates[|dates| - 1];
      HtmlBlocksLength(init, confs);
      var group := Filter(confs, DateOf, d);
      assert HtmlBlocks(dates, confs) == HtmlBlocks(init, confs) + DateBlock(d, group);
      assert Grouped(dates, confs, DateOf) == Grouped(init, confs, DateOf) + group;
      DateBlockShape(d, group);
    }
  }

  /** Every key of the blocks has its heading among them. */
  lemma {:induction false} HtmlBlocksHeadings(dates: seq<int>, confs: seq<Conference>)
    ensures forall z :: z in dates ==> PublicationFormat.Heading(z) in HtmlBlocks(dates, confs)
    decreases |dates|
  {
    if dates != [] {
      var init, d := dates[..|dates| - 1], dates[|dates| - 1];
      HtmlBlocksHeadings(init, confs);
      var group := Filter(confs, DateOf, d);
      var b, blk := HtmlBlocks(init, confs), DateBlock(d, group);
      assert HtmlBlocks(dates, confs) == b + blk;
      DateBlockShape(d, group);
      forall z | z in dates ensures PublicationFormat.Heading(z) in b + blk {
        if z == d {
          assert (b + blk)[|b|] == PublicationFormat.Heading(d);
        } else {
          assert z in init;
        }
      }
    }
  }

  lemma DateBlockShape(date: int, group: seq<Conference>)
    ensures |DateBlock(date, group)| == 3 + |group| && DateBlock(date, group)[0] == PublicationFormat.Heading(date)
  {
  }

  /**
   * The fragment has a heading, a table opening and a table closing for
   * each date that occurs and one row per conference, with nothing after
   * the last table; every conference's date has its heading, and with no
   * conferences the fragment is empty.
   */
  lemma HtmlPageLayout(confs: seq<Conference>)
    ensures var parts := HtmlParts(confs);
            && |parts| == 3 * |DescKeys(confs, DateOf)| + |confs|
            && (parts != [] ==> parts[|parts| - 1] == PublicationFormat.TableClose)
            && forall i :: 0 <= i < |confs| ==> PublicationFormat.Heading(confs[i].date) in parts
    ensures confs == [] ==> Join("\n", HtmlParts(confs)) == ""
  {
    var ks := DescKeys(confs, DateOf);
    GroupedDescending(confs, DateOf);
    HtmlBlocksLength(ks, confs);
    HtmlBlocksHeadings(ks, confs);
    assert |Grouped(ks, confs, DateOf)| == |confs| by {
      assert |multiset(Grouped(ks, confs, DateOf))| == |multiset(confs)|;
    }
    if ks != [] {
      var init, d := ks[..|ks| - 1], ks[|ks| - 1];
      var blk := DateBlock(d, Filter(confs, DateOf, d));
      assert HtmlBlocks(ks, confs) == HtmlBlocks(init, confs) + blk;
    }
    forall i | 0 <= i < |confs| ensures PublicationFormat.Heading(confs[i].date) in HtmlParts(confs) {
      assert DateOf(confs[i]) in ks;
    }
  }

  // ---------------------------------------------------------------- Markdown

  /** One Markdown citation: authors, date, title, the venue in italics and the location. */
  function MarkdownCitation(c: Conference): string {
    AuthorsListText(c.authors, true) + " (" + IntToString(c.date) + "). " + c.title + ". *" + c.venue + "*, " + c.location
  }

  function MarkdownParts(confs: seq<Conference>): (r: seq<string>)
    ensures |r| == |confs|
    decreases |confs|
  {
    if confs == [] then []
    else MarkdownParts(confs[..|confs| - 1]) + [MarkdownCitation(confs[|confs| - 1])]
  }

  /** The text `generate_markdown` returns: the citations, newest date first, one paragraph each. */
  function MarkdownPage(confs: seq<Conference>): string {
    Join("\n\n", MarkdownParts(SortDesc(confs, DateOf))) + "\n"
  }

  lemma MarkdownPartsSnoc(confs: seq<Conference>, i: int)
    requires 0 <= i < |confs|
    ensures MarkdownParts(confs[..i + 1]) == MarkdownParts(confs[..i]) + [MarkdownCitation(confs[i])]
  {
    assert confs[..i + 1][..i] == confs[..i];
  }

  /** `generate_markdown`. */
  method GenerateMarkdown(conferences: seq<Conference>) returns (md: string)
    ensures md == MarkdownPage(conferences)
  {
    var sortedConfs := SortDesc(conferences, DateOf);
    var mdParts: seq<string> := [];
    var i := 0;
    while i < |sortedConfs|
      invariant 0 <= i <= |sortedConfs|
      invariant mdParts == MarkdownParts(sortedConfs[..i])
    {
      var conf := sortedConfs[i];
      var authorsStr := FormatAuthorsList(conf.authors, true);
      MarkdownPartsSnoc(sortedConfs, i);
      mdParts := mdParts + [authorsStr + " (" + IntToString(conf.date) + "). " + conf.title + ". *" + conf.venue + "*, " + conf.location];
      i := i + 1;
    }
    assert sortedConfs[..|sortedConfs|] == sortedConfs;
    md := Join("\n\n", mdParts) + "\n";
  }

  lemma {:induction false} MarkdownPartsAt(confs: seq<Conference>, i: int)
    requires 0 <= i < |confs|
    ensures MarkdownParts(confs)[i] == MarkdownCitation(confs[i])
    decreases |confs|
  {
    if i < |confs| - 1 {
      MarkdownPartsAt(confs[..|confs| - 1], i);
    }
  }

  /**
   * The Markdown page lists every conference exactly once, newest date
   * first, keeps the input order within a date, and ends with a newline;
   * with no conferences it is a single newline.
   */
  lemma MarkdownPageLayout(confs: seq<Conference>)
    ensures var s := SortDesc(confs, DateOf);
            && SortedDesc(s, DateOf)
            && multiset(s) == multiset(confs)
            && (forall d :: Filter(s, DateOf, d) == Filter(confs, DateOf, d))
            && |MarkdownParts(s)| == |confs|
            && (forall i :: 0 <= i < |s| ==> MarkdownParts(s)[i] == MarkdownCitation(s[i]))
    ensures MarkdownPage(confs)[|MarkdownPage(confs)| - 1] == '\n'
    ensures confs == [] ==> MarkdownPage(confs) == "\n"
  {
    var s := SortDesc(confs, DateOf);
    SortDescSortedPermutation(confs, DateOf);
    assert |s| == |confs| by {
      assert |multiset(s)| == |multiset(confs)|;
    }
    forall d ensures Filter(s, DateOf, d) == Filter(confs, DateOf, d) {
      SortDescStable(confs, DateOf, d);
    }
    forall i | 0 <= i < |s| ensures MarkdownParts(s)[i] == MarkdownCitation(s[i]) {
      MarkdownPartsAt(s, i);
    }
  }
}
