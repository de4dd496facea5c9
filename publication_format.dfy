/**
 * Citation formatting for fetched publications (_scripts/update_publications.py):
 * author-name abbreviation with the site owner's name in bold, the author
 * list, the year-grouped HTML fragment and the CV Markdown fragment.
 */
module PublicationFormat {
  import opened Text
  import opened Ordering

  /** The site owner's Google Scholar profile id. */
  const ScholarId := "dAAMOqgAAAAJ"
  const ProfileUrl := "https://scholar.google.com/citations?hl=en&user=" + ScholarId

  /** One publication as the fetcher builds it and the renderers read it. */
  datatype Publication = Publication(
    title: string,
    author: string,
    journal: string,
    number: string,
    cites: int,
    year: int,
    link: string)

  function YearOf(p: Publication): int { p.year }

  /** The abbreviated names that are the site owner's. */
  const SelfNames: seq<string> := ["J Skaza", "JS Skaza"]

  // ---------------------------------------------------------------- one name

  /** A raw name is either returned as it is or abbreviated to `initials last`. */
  datatype ParsedName = Verbatim(text: string) | Abbreviated(formatted: string)

  /** The first character of every token, with nothing between them. */
  function Initials(ws: seq<string>): (r: string)
    requires AllWords(ws)
    ensures |r| == |ws|
    ensures forall i :: 0 <= i < |ws| ==> r[i] == ws[i][0]
  {
    seq(|ws|, i requires 0 <= i < |ws| => ws[i][0])
  }

  function Abbreviate(firstMiddle: string, last: string): string {
    Initials(Words(firstMiddle)) + " " + last
  }

  /**
   * The two naming rules of `format_name`: with a comma the surname is the
   * text before the first comma and the given names the text between the
   * first and the second; without one the surname is the last token. An
   * empty name, and a comma-free name of fewer than two tokens, are kept.
   */
  function ParseName(author: string): ParsedName {
    if author == "" then Verbatim("")
    else
      var parts := Split(author, ",");
      if |parts| > 1 then Abbreviated(Abbreviate(Strip(parts[1]), Strip(parts[0])))
      else
        var words := Words(author);
        if |words| < 2 then Verbatim(author)
        else Abbreviated(Abbreviate(Join(" ", words[..|words| - 1]), words[|words| - 1]))
  }

  predicate IsSelf(formatted: string) {
    Strip(formatted) in SelfNames
  }

  /** Whether `format_name` puts this author in bold. */
  predicate Emphasised(author: string) {
    ParseName(author).Abbreviated? && IsSelf(ParseName(author).formatted)
  }

  /** `format_name`: the abbreviated name, in `<b>` when it is the site owner's. */
  function FormatName(author: string): string {
    match ParseName(author)
    case Verbatim(t) => t
    case Abbreviated(f) => if IsSelf(f) then "<b>" + f + "</b>" else f
  }

  /**
   * `format_name_markdown` as written: it rewrites any result of
   * `format_name` that starts with `<b>` by slicing `[3:-4]`, including a
   * name returned unchanged that merely begins with `<b>`.
   */
  function FormatNameMarkdownAsWritten(author: string): string {
    var f := FormatName(author);
    if StartsWith(f, "<b>") then "**" + PySlice(f, 3, -4) + "**" else f
  }

  /** `format_name_markdown` as intended: the same name, with `**` for bold. */
  function FormatNameMarkdown(author: string): string {
    match ParseName(author)
    case Verbatim(t) => t
    case Abbreviated(f) => if IsSelf(f) then "**" + f + "**" else f
  }

  /** The name formatter of each output format. */
  function Formatter(markup: Markup): string -> string {
    if markup == Html then a => FormatName(a) else a => FormatNameMarkdown(a)
  }

  /** An empty name, or a comma-free name of fewer than two tokens, is returned unchanged. */
  lemma FormatNameKeepsShortNames(author: string)
    requires ',' !in author && |Words(author)| < 2
    ensures FormatName(author) == author
    ensures FormatNameMarkdown(author) == author
  {
    if author != "" {
      SplitWithoutSeparator(author, ',');
    }
  }

  /**
   * The whitespace rule: initials are the first characters of every token
   * but the last, the surname is the last token, and the result is in bold
   * exactly when it is one of the site owner's names.
   */
  lemma FormatNameWhitespaceRule(author: string)
    requires ',' !in author && |Words(author)| >= 2
    ensures var ws := Words(author);
            var f := Initials(ws[..|ws| - 1]) + " " + ws[|ws| - 1];
            && ParseName(author) == Abbreviated(f)
            && Emphasised(author) == (f in SelfNames)
            && FormatName(author) == if f in SelfNames then "<b>" + f + "</b>" else f
  {
    var ws := Words(author);
    var given, last := ws[..|ws| - 1], ws[|ws| - 1];
    SplitWithoutSeparator(author, ',');
    WordsOfJoin(given);
    var f := Initials(given) + " " + last;
    assert IsWord(ws[0]) && IsWord(last);
    assert f[0] == ws[0][0];
    assert f[|f| - 1] == last[|last| - 1];
    assert Strip(f) == f;
  }

  /**
   * The comma rule reads only the text before the second comma: whatever
   * follows it does not change the result.
   */
  lemma FormatNameIgnoresAfterSecondComma(last: string, given: string, tail: string)
    requires ',' !in last && ',' !in given
    ensures ParseName(last + "," + given + "," + tail) == ParseName(last + "," + given)
    ensures ParseName(last + "," + given) == Abbreviated(Abbreviate(Strip(given), Strip(last)))
  {
    var long := last + "," + given + "," + tail;
    var short := last + "," + given;
    assert long == last + [','] + (given + [','] + tail);
    assert short == last + [','] + given;
    SplitAtFirst(last, ',', given + [','] + tail);
    SplitAtFirst(given, ',', tail);
    SplitAtFirst(last, ',', given);
    SplitWithoutSeparator(given, ',');
  }

  /**
   * The Markdown form differs from the HTML form only in the bold markup:
   * `<b>s</b>` becomes `**s**` and every other result is the same.
   */
  lemma MarkdownMirrorsHtml(author: string)
    ensures Emphasised(author) ==>
      && FormatName(author) == "<b>" + ParseName(author).formatted + "</b>"
      && FormatNameMarkdown(author) == "**" + ParseName(author).formatted + "**"
    ensures !Emphasised(author) ==> FormatNameMarkdown(author) == FormatName(author)
  {
  }

  /**
   * The slicing `format_name_markdown` does is right for every result that is
   * bold or that does not start with `<b>`.
   */
  lemma MarkdownAsWrittenAgrees(author: string)
    requires Emphasised(author) || !StartsWith(FormatName(author), "<b>")
    ensures FormatNameMarkdownAsWritten(author) == FormatNameMarkdown(author)
  {
    if Emphasised(author) {
      UnboldSlice(ParseName(author).formatted);
    }
  }

  /** Slicing `[3:-4]` out of `<b>f</b>` gives `f` back. */
  lemma UnboldSlice(f: string)
    ensures StartsWith("<b>" + f + "</b>", "<b>")
    ensures PySlice("<b>" + f + "</b>", 3, -4) == f
  {
    var b := "<b>" + f + "</b>";
    assert b[..3] == "<b>";
    assert b[3..|b| - 4] == f;
  }

  /**
   * A single-token name that begins with `<b>` is returned unchanged by
   * `format_name`, but `format_name_markdown` as written slices it as if it
   * were bold, so the two Markdown forms differ.
   */
  lemma MarkdownAsWrittenMangles(w: string)
    requires IsWord(w) && ',' !in w && StartsWith(w, "<b>")
    ensures FormatName(w) == w && FormatNameMarkdown(w) == w
    ensures FormatNameMarkdownAsWritten(w) == "**" + PySlice(w, 3, -4) + "**"
    ensures FormatNameMarkdownAsWritten(w) != FormatNameMarkdown(w)
  {
    WordsOfWord(w);
    FormatNameKeepsShortNames(w);
    var m := "**" + PySlice(w, 3, -4) + "**";
    assert w[0] == '<' && m[0] == '*';
  }

  /** The shortest such name, `<b>x`, becomes `****`. */
  lemma MarkdownAsWrittenManglesExample()
    ensures FormatNameMarkdown("<b>x") == "<b>x"
    ensures FormatNameMarkdownAsWritten("<b>x") == "****"
  {
    var w := "<b>x";
    assert IsWord(w) && ',' !in w && StartsWith(w, "<b>");
    MarkdownAsWrittenMangles(w);
    assert PySlice(w, 3, -4) == "";
  }

  lemma OwnerSpellings()
    ensures "J" + " " + "Skaza" == "J Skaza" == SelfNames[0]
    ensures "JS" + " " + "Skaza" == "JS Skaza" == SelfNames[1]
    ensures "<b>" + "J Skaza" + "</b>" == "<b>J Skaza</b>"
    ensures "<b>" + "JS Skaza" + "</b>" == "<b>JS Skaza</b>"
    ensures "**" + "J Skaza" + "**" == "**J Skaza**"
    ensures IsWord("Skaza") && ',' !in "Skaza"
  {
  }

  /** Both of the owner's names are their own `strip()`. */
  lemma SelfNamesTrimmed()
    ensures forall i :: 0 <= i < |SelfNames| ==> Strip(SelfNames[i]) == SelfNames[i]
  {
    TrimmedName("J", "Skaza");
    TrimmedName("JS", "Skaza");
  }

  /** An abbreviated name "initials surname" is its own `strip()`. */
  lemma TrimmedName(initials: string, last: string)
    requires initials != "" && last != "" && !IsSpace(initials[0]) && !IsSpace(last[|last| - 1])
    ensures Strip(initials + " " + last) == initials + " " + last
  {
    var w := initials + " " + last;
    assert w[0] == initials[0] && w[|w| - 1] == last[|last| - 1];
  }

  /** A name that parses to one of the owner's abbreviations is put in bold. */
  lemma SelfIsBold(author: string, f: string)
    requires ParseName(author) == Abbreviated(f) && f in SelfNames
    ensures FormatName(author) == "<b>" + f + "</b>"
    ensures FormatNameMarkdown(author) == "**" + f + "**"
  {
    SelfNamesTrimmed();
  }

  /** Two tokens: the initial of the first, a space, and the second as surname. */
  lemma TwoTokenName(a: string, c: string)
    requires IsWord(a) && ',' !in a && IsWord(c) && ',' !in c
    ensures ParseName(a + " " + c) == Abbreviated([a[0]] + " " + c)
  {
    var ws := [a, c];
    assert Join(" ", ws) == a + " " + c;
    WordsOfJoin(ws);
    FormatNameWhitespaceRule(a + " " + c);
    assert ws[..1] == [a];
    var ini := Initials([a]);
    assert |ini| == 1 && ini[0] == a[0];
    assert ini == [a[0]];
    assert ParseName(a + " " + c) == Abbreviated(ini + " " + c);
  }

  /** Three tokens: the initials of the first two and the third as surname. */
  lemma ThreeTokenName(a: string, b: string, c: string)
    requires IsWord(a) && ',' !in a && IsWord(b) && ',' !in b && IsWord(c) && ',' !in c
    ensures ParseName(a + " " + b + " " + c) == Abbreviated([a[0], b[0]] + " " + c)
  {
    var ws := [a, b, c];
    JoinThree(a, b, c);
    WordsOfJoin(ws);
    FormatNameWhitespaceRule(a + " " + b + " " + c);
    assert ws[..2] == [a, b];
    InitialsOfTwo(a, b);
  }

  lemma JoinThree(a: string, b: string, c: string)
    ensures Join(" ", [a, b, c]) == a + " " + b + " " + c
  {
    var ws := [a, b, c];
    assert ws[1..] == [b, c];
    assert Join(" ", ws[1..]) == b + " " + c;
    assert Join(" ", ws) == a + " " + (b + " " + c);
  }

  lemma InitialsOfTwo(a: string, b: string)
    requires IsWord(a) && IsWord(b)
    ensures Initials([a, b]) == [a[0], b[0]]
  {
    var ini := Initials([a, b]);
    assert |ini| == 2 && ini[0] == a[0] && ini[1] == b[0];
  }

  /** Any "J… Skaza" in the whitespace spelling is the site owner, in bold. */
  lemma OwnerNameIsBold(first: string)
    requires IsWord(first) && first[0] == 'J' && ',' !in first
    ensures FormatName(first + " " + "Skaza") == "<b>J Skaza</b>"
    ensures FormatNameMarkdown(first + " " + "Skaza") == "**J Skaza**"
  {
    OwnerSpellings();
    TwoTokenName(first, "Skaza");
    assert [first[0]] == "J";
    SelfIsBold(first + " " + "Skaza", "J Skaza");
  }

  /** With a middle name starting with S the owner is "JS Skaza", in bold. */
  lemma OwnerNameWithMiddleIsBold(first: string, middle: string)
    requires IsWord(first) && first[0] == 'J' && ',' !in first
    requires IsWord(middle) && middle[0] == 'S' && ',' !in middle
    ensures FormatName(first + " " + middle + " " + "Skaza") == "<b>JS Skaza</b>"
  {
    OwnerSpellings();
    ThreeTokenName(first, middle, "Skaza");
    assert [first[0], middle[0]] == "JS";
    SelfIsBold(first + " " + middle + " " + "Skaza", "JS Skaza");
  }

  /**
   * The comma spelling "Last, Given" of two tokens abbreviates to the
   * initial of the given name, a space and the surname.
   */
  lemma CommaNameRule(last: string, given: string)
    requires IsWord(last) && ',' !in last
    requires IsWord(given) && ',' !in given
    ensures ParseName(last + ", " + given) == Abbreviated([given[0]] + " " + last)
  {
    var g := " " + given;
    assert ',' !in g;
    assert last + ", " + given == last + "," + g;
    FormatNameIgnoresAfterSecondComma(last, g, "");
    StripTrimmed(given);
    StripTrimmed(last);
    AbbreviateWord(given, last);
  }

  /** A one-token given name abbreviates to its first character. */
  lemma AbbreviateWord(given: string, last: string)
    requires IsWord(given)
    ensures Abbreviate(given, last) == [given[0]] + " " + last
  {
    WordsOfWord(given);
    var ini := Initials([given]);
    assert ini == [given[0]];
  }

  /** "Skaza, J…" in the comma spelling is the owner too. */
  lemma OwnerCommaNameIsBold(given: string)
    requires IsWord(given) && given[0] == 'J' && ',' !in given
    ensures FormatName("Skaza" + ", " + given) == "<b>J Skaza</b>"
  {
    OwnerSpellings();
    CommaNameRule("Skaza", given);
    assert [given[0]] == "J";
    SelfIsBold("Skaza" + ", " + given, "J Skaza");
  }

  // ---------------------------------------------------------------- author list

  /** The names of an author string: split on " and ", then on commas, each stripped. */
  function AuthorPieces(authors: string): seq<string> {
    PiecesOf(Split(authors, " and "))
  }

  function PiecesOf(parts: seq<string>): seq<string>
    decreases |parts|
  {
    if parts == [] then []
    else PiecesOf(parts[..|parts| - 1]) + StripAll(Split(parts[|parts| - 1], ","))
  }

  /** The pieces that are not blank, in order. */
  function NonBlank(names: seq<string>): seq<string>
    decreases |names|
  {
    if names == [] then []
    else
      var last := names[|names| - 1];
      NonBlank(names[..|names| - 1]) + (if !AllSpace(last) then [last] else [])
  }

  /**
   * `[fmt(a) for a in names if a.strip()]`; `a.strip()` is empty exactly
   * when `a` is all whitespace.
   */
  function FormattedNames(names: seq<string>, fmt: string -> string): seq<string>
    decreases |names|
  {
    if names == [] then []
    else
      var last := names[|names| - 1];
      FormattedNames(names[..|names| - 1], fmt) + (if !AllSpace(last) then [fmt(last)] else [])
  }

  /** What `format_authors` (Html) and `format_authors_markdown` (Markdown) return. */
  function AuthorsText(authors: string, markup: Markup): string {
    Join(", ", FormattedNames(AuthorPieces(authors), Formatter(markup)))
  }

  /** `format_authors` / `format_authors_markdown`. */
  method FormatAuthors(authorsStr: string, markup: Markup) returns (r: string)
    ensures r == AuthorsText(authorsStr, markup)
  {
    var fmt := Formatter(markup);
    var parts := Split(authorsStr, " and ");
    var authors: seq<string> := [];
    var i := 0;
    while i < |parts|
      invariant 0 <= i <= |parts|
      invariant authors == PiecesOf(parts[..i])
    {
      authors := authors + StripAll(Split(parts[i], ","));
      assert parts[..i + 1][..i] == parts[..i];
      i := i + 1;
    }
    assert parts[..|parts|] == parts;
    var formatted := FormatNonBlank(authors, fmt);
    r := Join(", ", formatted);
  }

  /** The comprehension `[fmt(a) for a in names if a.strip()]`. */
  method FormatNonBlank(names: seq<string>, fmt: string -> string) returns (formatted: seq<string>)
    ensures formatted == FormattedNames(names, fmt)
  {
    formatted := [];
    var j := 0;
    while j < |names|
      invariant 0 <= j <= |names|
      invariant formatted == FormattedNames(names[..j], fmt)
    {
      if !AllSpace(names[j]) {
        formatted := formatted + [fmt(names[j])];
      }
      assert names[..j + 1][..j] == names[..j];
      j := j + 1;
    }
    assert names[..|names|] == names;
  }

  /** A piece is clean when it has no comma and is empty or has no surrounding whitespace. */
  predicate Clean(name: string) {
    ',' !in name && (name == "" || Trimmed(name))
  }

  lemma StripIsClean(raw: string)
    requires ',' !in raw
    ensures Clean(Strip(raw))
  {

  }

  lemma StrippedPiecesAreClean(s: string)
    ensures forall k :: 0 <= k < |StripAll(Split(s, ","))| ==> Clean(StripAll(Split(s, ","))[k])
  {
    var raw := Split(s, ",");
    SplitPiecesAvoidSeparator(s, ',');
    forall k | 0 <= k < |raw| ensures Clean(Strip(raw[k])) {
      assert raw[k] in raw;
      StripIsClean(raw[k]);
    }
  }

  /**
   * Every piece is clean, so `format_name` never sees a comma from
   * `format_authors` and always takes the whitespace rule.
   */
  lemma {:induction false} AuthorPiecesAreClean(parts: seq<string>)
    ensures forall i :: 0 <= i < |PiecesOf(parts)| ==> Clean(PiecesOf(parts)[i])
    decreases |parts|
  {
    if parts != [] {
      var init, last := parts[..|parts| - 1], parts[|parts| - 1];
      AuthorPiecesAreClean(init);
      StrippedPiecesAreClean(last);
      var a, b := PiecesOf(init), StripAll(Split(last, ","));
      forall k | 0 <= k < |a + b| ensures Clean((a + b)[k]) {
        if k >= |a| {
          assert (a + b)[k] == b[k - |a|];
        }
      }
    }
  }

  /** `FormattedNames` is `fmt` applied to each non-blank piece. */
  lemma {:induction false} FormattedNamesAt(names: seq<string>, fmt: string -> string)
    ensures |FormattedNames(names, fmt)| == |NonBlank(names)|
    ensures forall i :: 0 <= i < |NonBlank(names)| ==> FormattedNames(names, fmt)[i] == fmt(NonBlank(names)[i])
    decreases |names|
  {
    if names != [] {
      FormattedNamesAt(names[..|names| - 1], fmt);
    }
  }

  /** Every non-blank piece of a list of pieces is one of them and not blank. */
  lemma {:induction false} NonBlankPieces(names: seq<string>)
    ensures forall i :: 0 <= i < |NonBlank(names)| ==> NonBlank(names)[i] in names && !AllSpace(NonBlank(names)[i])
    decreases |names|
  {
    if names != [] {
      var init := names[..|names| - 1];
      NonBlankPieces(init);
      assert forall x :: x in init ==> x in names;
    }
  }

  /** An abbreviation of comma-free tokens is trimmed and comma-free. */
  lemma AbbreviationShape(ws: seq<string>)
    requires AllWords(ws) && |ws| >= 2
    requires forall i :: 0 <= i < |ws| ==> ',' !in ws[i]
    ensures var f := Initials(ws[..|ws| - 1]) + " " + ws[|ws| - 1];
            Trimmed(f) && ',' !in f
  {
    var given, last := ws[..|ws| - 1], ws[|ws| - 1];
    var ini := Initials(given);
    var f := ini + " " + last;
    assert IsWord(ws[0]) && IsWord(last);
    assert f[0] == ws[0][0];
    assert f[|f| - 1] == last[|last| - 1];
    forall k | 0 <= k < |f| ensures f[k] != ',' {
      if k < |ini| {
        assert f[k] == given[k][0] && given[k] == ws[k];
        assert ws[k][0] in ws[k];
      } else if k > |ini| {
        assert f[k] == last[k - |ini| - 1];
      }
    }
  }

  /** Bold markup keeps a name trimmed and comma-free. */
  lemma BoldShape(f: string)
    requires Trimmed(f) && ',' !in f
    ensures Trimmed("<b>" + f + "</b>") && ',' !in "<b>" + f + "</b>"
    ensures Trimmed("**" + f + "**") && ',' !in "**" + f + "**"
  {
  }

  /** A clean, non-blank name formats to a trimmed name without commas. */
  lemma FormatNameOfClean(author: string)
    requires Trimmed(author) && ',' !in author
    ensures Trimmed(FormatName(author)) && ',' !in FormatName(author)
    ensures Trimmed(FormatNameMarkdown(author)) && ',' !in FormatNameMarkdown(author)
  {
    if |Words(author)| < 2 {
      FormatNameKeepsShortNames(author);
    } else {
      FormatNameWhitespaceRule(author);
      WordsAvoid(author, ',');
      AbbreviationShape(Words(author));
      BoldShape(ParseName(author).formatted);
      MarkdownMirrorsHtml(author);
    }
  }

  /**
   * Reading the list back: splitting the joined text on commas and
   * stripping each part gives exactly the formatted names, one per
   * non-blank piece; with no non-blank piece the text is empty.
   */
  lemma AuthorsTextReadsBack(authors: string, markup: Markup)
    ensures var fs := FormattedNames(AuthorPieces(authors), Formatter(markup));
            && |fs| == |NonBlank(AuthorPieces(authors))|
            && (fs == [] ==> AuthorsText(authors, markup) == "")
            && (fs != [] ==> StripAll(Split(AuthorsText(authors, markup), ",")) == fs)
  {
    var ps := AuthorPieces(authors);
    var fmt := Formatter(markup);
    var fs := FormattedNames(ps, fmt);
    FormattedNamesAt(ps, fmt);
    if fs != [] {
      AuthorPiecesAreClean(Split(authors, " and "));
      NonBlankPieces(ps);
      var nb := NonBlank(ps);
      forall i | 0 <= i < |fs| ensures Trimmed(fs[i]) && ',' !in fs[i] {
        FormatNameOfClean(nb[i]);
      }
      ReadBack(fs);
    }
  }

  lemma StripSpaced(fs: seq<string>)
    requires |fs| >= 1
    requires forall i :: 0 <= i < |fs| ==> Trimmed(fs[i])
    ensures StripAll([fs[0]] + PrefixEach(" ", fs[1..])) == fs
  {
    var spaced := [fs[0]] + PrefixEach(" ", fs[1..]);
    var r := StripAll(spaced);
    forall i | 0 <= i < |fs| ensures r[i] == fs[i] {
      StripTrimmed(fs[i]);
      if i > 0 {
        ConsPrefixEachAt(" ", fs, i);
      }
    }
  }

  lemma ReadBack(fs: seq<string>)
    requires |fs| >= 1
    requires forall i :: 0 <= i < |fs| ==> Trimmed(fs[i]) && ',' !in fs[i]
    ensures StripAll(Split(Join(", ", fs), ",")) == fs
  {
    SplitOfCommaJoin(fs);
    StripSpaced(fs);
  }

  /**
   * The Markdown list has the same names as the HTML list in the same
   * order; they differ only in the bold markup of the owner's names.
   */
  lemma AuthorsMarkdownMirrorsHtml(authors: string)
    ensures var nb := NonBlank(AuthorPieces(authors));
            var h := FormattedNames(AuthorPieces(authors), Formatter(Html));
            var d := FormattedNames(AuthorPieces(authors), Formatter(Markdown));
            && |h| == |d| == |nb|
            && forall i :: 0 <= i < |nb| ==>
                 if Emphasised(nb[i])
                 then h[i] == "<b>" + ParseName(nb[i]).formatted + "</b>"
                   && d[i] == "**" + ParseName(nb[i]).formatted + "**"
                 else d[i] == h[i]
  {
    var ps := AuthorPieces(authors);
    FormattedNamesAt(ps, Formatter(Html));
    FormattedNamesAt(ps, Formatter(Markdown));
    var nb := NonBlank(ps);
    forall i | 0 <= i < |nb| ensures Emphasised(nb[i]) ==> FormatName(nb[i]) == "<b>" + ParseName(nb[i]).formatted + "</b>" {
      MarkdownMirrorsHtml(nb[i]);
    }
  }

  // ---------------------------------------------------------------- HTML

  const TableOpen := "<table class=\"publication-table\"><tbody>"
  const TableClose := "</tbody></table>"

  function Heading(year: int): string {
    "<h3>" + IntToString(year) + "</h3>"
  }

  /** `format_authors_markdown` as written, with `format_name_markdown` as written. */
  function AuthorsMarkdownAsWritten(authors: string): string {
    Join(", ", FormattedNames(AuthorPieces(authors), a => FormatNameMarkdownAsWritten(a)))
  }

  /**
   * The Markdown author list as written equals the corrected one whenever
   * no kept piece is a name that `format_name` leaves unbolded but that
   * starts with `<b>`.
   */
  lemma AuthorsMarkdownAsWrittenAgrees(authors: string)
    requires forall i :: 0 <= i < |NonBlank(AuthorPieces(authors))| ==>
               Emphasised(NonBlank(AuthorPieces(authors))[i]) || !StartsWith(FormatName(NonBlank(AuthorPieces(authors))[i]), "<b>")
    ensures AuthorsMarkdownAsWritten(authors) == AuthorsText(authors, Markdown)
  {
    var pieces := AuthorPieces(authors);
    var nb := NonBlank(pieces);
    var asWritten := a => FormatNameMarkdownAsWritten(a);
    forall i | 0 <= i < |nb| ensures asWritten(nb[i]) == Formatter(Markdown)(nb[i]) {
      MarkdownAsWrittenAgrees(nb[i]);
    }
    FormattedNamesAgree(pieces, asWritten, Formatter(Markdown));
  }

  /** Two formatters that agree on every kept piece give the same names. */
  lemma FormattedNamesAgree(names: seq<string>, f: string -> string, g: string -> string)
    requires forall i :: 0 <= i < |NonBlank(names)| ==> f(NonBlank(names)[i]) == g(NonBlank(names)[i])
    ensures FormattedNames(names, f) == FormattedNames(names, g)
  {
    FormattedNamesAt(names, f);
    FormattedNamesAt(names, g);
  }

  /** The closing paragraph; `updatedOn` is the date the page was generated, as text. */
  function Footer(updatedOn: string): string {
    "<p style=\"text-align: right; margin-top: 40px;\"><small>Last updated <i>" + updatedOn + "</i>"
    + "&ndash; Pulled automatically from my <a href=\"" + ProfileUrl + "\">Google Scholar profile</a>. </small></p>"
  }

  /** One HTML citation: authors, year, linked title, then journal and number when present. */
  function HtmlCitation(p: Publication, year: int): string {
    var base := AuthorsText(p.author, Html) + " (" + IntToString(year) + ") <a href=\"" + p.link + "\">" + p.title + "</a>";
    Cited(base, ", <em>" + p.journal + "</em>", p.journal, p.number)
  }

  /** A citation's tail: the journal part `em` when `journal` is not empty, then `, number` when `number` is not empty too. */
  function Cited(base: string, em: string, journal: string, number: string): string {
    if journal == "" then base
    else if number == "" then base + em
    else base + em + ", " + number
  }

  function HtmlRow(p: Publication, year: int): string {
    "<tr><td>" + HtmlCitation(p, year) + "</td></tr>"
  }

  function HtmlRows(group: seq<Publication>, year: int): (r: seq<string>)
    ensures |r| == |group|
    decreases |group|
  {
    if group == [] then []
    else HtmlRows(group[..|group| - 1], year) + [HtmlRow(group[|group| - 1], year)]
  }

  /** The heading, the table and the rows of one year. */
  function YearBlock(year: int, group: seq<Publication>): seq<string> {
    [Heading(year), TableOpen] + HtmlRows(group, year) + [TableClose]
  }

  /** The blocks of the years `years`, each with the publications of that year in input order. */
  function HtmlBlocks(years: seq<int>, pubs: seq<Publication>): seq<string>
    decreases |years|
  {
    if years == [] then []
    else
      var y := years[|years| - 1];
      HtmlBlocks(years[..|years| - 1], pubs) + YearBlock(y, Filter(pubs, YearOf, y))
  }

  /** The parts `generate_html` joins: the year blocks, newest first, then the closing paragraph `footer`. */
  function HtmlParts(pubs: seq<Publication>, footer: string): seq<string> {
    HtmlBlocks(DescKeys(pubs, YearOf), pubs) + [footer]
  }

  /** `generate_html`; the clock is replaced by the date text `updatedOn`. */
  method GenerateHtml(publications: seq<Publication>, updatedOn: string) returns (html: string)
    ensures html == Join("\n", HtmlParts(publications, Footer(updatedOn)))
  {
    var pubsByYear, firstSeen := GroupBy(publications, YearOf);
    var years := SortDesc(firstSeen, Id);
    DescKeysStrictlyDescending(publications, YearOf);
    assert years == DescKeys(publications, YearOf);
    var htmlParts := AppendYearBlocks([], years, pubsByYear, publications);
    assert htmlParts == HtmlBlocks(years, publications);
    var footer := Footer(updatedOn);
    htmlParts := htmlParts + [footer];
    assert htmlParts == HtmlParts(publications, footer);
    html := Join("\n", htmlParts);
  }

  /** The year loop of `generate_html`: one block per year of `years`, in that order. */
  method AppendYearBlocks(parts: seq<string>, years: seq<int>, pubsByYear: map<int, seq<Publication>>,
                          pubs: seq<Publication>) returns (r: seq<string>)
    requires forall y :: y in years ==> y in pubsByYear && pubsByYear[y] == Filter(pubs, YearOf, y)
    ensures r == parts + HtmlBlocks(years, pubs)
  {
    var blocks: seq<string> := [];
    var i := 0;
    while i < |years|
      invariant 0 <= i <= |years|
      invariant blocks == HtmlBlocks(years[..i], pubs)
    {
      var year := years[i];
      assert year in years;
      blocks := NextYearBlock(blocks, years, i, pubsByYear[year], pubs);
      i := i + 1;
    }
    assert years[..|years|] == years;
    r := parts + blocks;
  }

  /** One pass of the year loop: the block of `years[i]`, whose publications are `group`. */
  method NextYearBlock(blocks: seq<string>, years: seq<int>, i: int, group: seq<Publication>,
                       pubs: seq<Publication>) returns (r: seq<string>)
    requires 0 <= i < |years| && group == Filter(pubs, YearOf, years[i])
    requires blocks == HtmlBlocks(years[..i], pubs)
    ensures r == HtmlBlocks(years[..i + 1], pubs)
  {
    HtmlBlocksSnoc(years, i, pubs);
    r := AppendYearBlock(blocks, years[i], group);
  }

  lemma HtmlBlocksSnoc(years: seq<int>, i: int, pubs: seq<Publication>)
    requires 0 <= i < |years|
    ensures HtmlBlocks(years[..i + 1], pubs)
         == HtmlBlocks(years[..i], pubs) + YearBlock(years[i], Filter(pubs, YearOf, years[i]))
  {
    assert years[..i + 1][..i] == years[..i];
  }

  /** The body of the year loop of `generate_html`: heading, table and one row per publication. */
  method AppendYearBlock(parts: seq<string>, year: int, group: seq<Publication>) returns (r: seq<string>)
    ensures r == parts + YearBlock(year, group)
  {
    var rows: seq<string> := [];
    var j := 0;
    while j < |group|
      invariant 0 <= j <= |group|
      invariant rows == HtmlRows(group[..j], year)
    {
      var citation := CitationHtml(group[j], year);
      HtmlRowsSnoc(group, j, year);
      rows := rows + ["<tr><td>" + citation + "</td></tr>"];
      j := j + 1;
    }
    assert group[..|group|] == group;
    r := parts + ([Heading(year), TableOpen] + rows + [TableClose]);
  }

  lemma HtmlRowsSnoc(group: seq<Publication>, j: int, year: int)
    requires 0 <= j < |group|
    ensures HtmlRows(group[..j + 1], year) == HtmlRows(group[..j], year) + [HtmlRow(group[j], year)]
  {
    assert group[..j + 1][..j] == group[..j];
  }

  /** The citation that `generate_html` builds for one publication. */
  method CitationHtml(pub: Publication, year: int) returns (citation: string)
    ensures citation == HtmlCitation(pub, year)
  {
    var authors := FormatAuthors(pub.author, Html);
    citation := authors + " (" + IntToString(year) + ") <a href=\"" + pub.link + "\">" + pub.title + "</a>";
    if pub.journal != "" {
      var em := ", <em>" + pub.journal + "</em>";
      citation := citation + em;
      if pub.number != "" {
        citation := citation + ", " + pub.number;
      }
    }
  }

  /**
   * The HTML citation opens with the authors, the year and the linked
   * title; the journal follows when it is not empty; the number is written
   * only when the journal and the number are both not empty.
   */
  lemma HtmlCitationSegments(p: Publication, year: int, n: string)
    ensures StartsWith(HtmlCitation(p, year),
              AuthorsText(p.author, Html) + " (" + IntToString(year) + ") <a href=\"" + p.link + "\">" + p.title + "</a>")
    ensures p.journal != "" ==> EndsWith(HtmlCitation(p.(number := ""), year), ", <em>" + p.journal + "</em>")
    ensures HtmlCitation(p.(number := n), year)
         == HtmlCitation(p.(number := ""), year) + (if p.journal != "" && n != "" then ", " + n else "")
  {
    var base := AuthorsText(p.author, Html) + " (" + IntToString(year) + ") <a href=\"" + p.link + "\">" + p.title + "</a>";
    var em := ", <em>" + p.journal + "</em>";
    CitationParts(base, em, p.journal, p.number, n);
    assert HtmlCitation(p.(number := n), year) == Cited(base, em, p.journal, n);
    assert HtmlCitation(p.(number := ""), year) == Cited(base, em, p.journal, "");
  }

  /** The year blocks have three parts per year and one row per record. */
  lemma {:induction false} HtmlBlocksLength(years: seq<int>, pubs: seq<Publication>)
    ensures |HtmlBlocks(years, pubs)| == 3 * |years| + |Grouped(years, pubs, YearOf)|
    decreases |years|
  {
    if years != [] {
      var init, y := years[..|years| - 1], years[|years| - 1];
      HtmlBlocksLength(init, pubs);
      var group := Filter(pubs, YearOf, y);
      assert HtmlBlocks(years, pubs) == HtmlBlocks(init, pubs) + YearBlock(y, group);
      assert Grouped(years, pubs, YearOf) == Grouped(init, pubs, YearOf) + group;
      YearBlockShape(y, group);
    }
  }

  /** Every key of the blocks has its heading among them. */
  lemma {:induction false} HtmlBlocksHeadings(years: seq<int>, pubs: seq<Publication>)
    ensures forall z :: z in years ==> Heading(z) in HtmlBlocks(years, pubs)
    decreases |years|
  {
    if years != [] {
      var init, y := years[..|years| - 1], years[|years| - 1];
      HtmlBlocksHeadings(init, pubs);
      var group := Filter(pubs, YearOf, y);
      var b, blk := HtmlBlocks(init, pubs), YearBlock(y, group);
      assert HtmlBlocks(years, pubs) == b + blk;
      YearBlockShape(y, group);
      forall z | z in years ensures Heading(z) in b + blk {
        if z == y {
          assert (b + blk)[|b|] == Heading(y);
        } else {
          assert z in init;
        }
      }
    }
  }

  lemma YearBlockShape(year: int, group: seq<Publication>)
    ensures |YearBlock(year, group)| == 3 + |group| && YearBlock(year, group)[0] == Heading(year)
  {
  }

  /**
   * The page has a heading, a table opening and a table closing for each
   * year that occurs, one row per publication, and the footer last; the
   * year of every publication has its heading.
   */
  lemma HtmlPageLayout(pubs: seq<Publication>, footer: string)
    ensures var parts := HtmlParts(pubs, footer);
            && |parts| == 3 * |DescKeys(pubs, YearOf)| + |pubs| + 1
            && parts[|parts| - 1] == footer
            && forall i :: 0 <= i < |pubs| ==> Heading(pubs[i].year) in parts
  {
    var ks := DescKeys(pubs, YearOf);
    GroupedDescending(pubs, YearOf);
    HtmlBlocksLength(ks, pubs);
    HtmlBlocksHeadings(ks, pubs);
    assert |Grouped(ks, pubs, YearOf)| == |pubs| by {
      assert |multiset(Grouped(ks, pubs, YearOf))| == |multiset(pubs)|;
    }
    forall i | 0 <= i < |pubs| ensures Heading(pubs[i].year) in HtmlParts(pubs, footer) {
      assert YearOf(pubs[i]) in ks;
    }
  }

  // ---------------------------------------------------------------- Markdown

  /** One Markdown citation: authors, year, title, then the journal in italics and the number when present. */
  function MarkdownCitation(p: Publication): string {
    var base := AuthorsText(p.author, Markdown) + " (" + IntToString(p.year) + "). " + p.title + ".";
    Cited(base, " *" + p.journal + "*", p.journal, p.number)
  }

  function MarkdownParts(pubs: seq<Publication>): (r: seq<string>)
    ensures |r| == |pubs|
    decreases |pubs|
  {
    if pubs == [] then []
    else MarkdownParts(pubs[..|pubs| - 1]) + [MarkdownCitation(pubs[|pubs| - 1])]
  }

  /** The text `generate_markdown` returns: the citations, newest year first, one paragraph each. */
  function MarkdownPage(pubs: seq<Publication>): string {
    Join("\n\n", MarkdownParts(SortDesc(pubs, YearOf))) + "\n"
  }

  /** `generate_markdown`. */
  method GenerateMarkdown(publications: seq<Publication>) returns (md: string)
    ensures md == MarkdownPage(publications)
  {
    var sortedPubs := SortDesc(publications, YearOf);
    var mdParts: seq<string> := [];
    var i := 0;
    while i < |sortedPubs|
      invariant 0 <= i <= |sortedPubs|
      invariant mdParts == MarkdownParts(sortedPubs[..i])
    {
      var citation := CitationMarkdown(sortedPubs[i]);
      MarkdownPartsSnoc(sortedPubs, i);
      mdParts := mdParts + [citation];
      i := i + 1;
    }
    assert sortedPubs[..|sortedPubs|] == sortedPubs;
    md := Join("\n\n", mdParts) + "\n";
  }

  lemma MarkdownPartsSnoc(pubs: seq<Publication>, i: int)
    requires 0 <= i < |pubs|
    ensures MarkdownParts(pubs[..i + 1]) == MarkdownParts(pubs[..i]) + [MarkdownCitation(pubs[i])]
  {
    assert pubs[..i + 1][..i] == pubs[..i];
  }

  /** The citation that `generate_markdown` builds for one publication. */
  method CitationMarkdown(pub: Publication) returns (citation: string)
    ensures citation == MarkdownCitation(pub)
  {
    var authors := FormatAuthors(pub.author, Markdown);
    citation := authors + " (" + IntToString(pub.year) + "). " + pub.title + ".";
    if pub.journal != "" {
      var em := " *" + pub.journal + "*";
      citation := citation + em;
      if pub.number != "" {
        citation := citation + ", " + pub.number;
      }
    }
  }

  /**
   * The Markdown citation opens with the authors, the year and the title;
   * the journal follows when it is not empty; the number is written only
   * when the journal and the number are both not empty.
   */
  lemma MarkdownCitationSegments(p: Publication, n: string)
    ensures StartsWith(MarkdownCitation(p), AuthorsText(p.author, Markdown) + " (" + IntToString(p.year) + "). " + p.title + ".")
    ensures p.journal != "" ==> EndsWith(MarkdownCitation(p.(number := "")), " *" + p.journal + "*")
    ensures MarkdownCitation(p.(number := n))
         == MarkdownCitation(p.(number := "")) + (if p.journal != "" && n != "" then ", " + n else "")
  {
    var base := AuthorsText(p.author, Markdown) + " (" + IntToString(p.year) + "). " + p.title + ".";
    var em := " *" + p.journal + "*";
    CitationParts(base, em, p.journal, p.number, n);
    assert MarkdownCitation(p.(number := n)) == Cited(base, em, p.journal, n);
    assert MarkdownCitation(p.(number := "")) == Cited(base, em, p.journal, "");
  }

  /** The shape both citation formats share: a base, the journal part, then the number part. */
  lemma CitationParts(base: string, em: string, journal: string, number: string, n: string)
    ensures StartsWith(Cited(base, em, journal, number), base)
    ensures journal != "" ==> EndsWith(Cited(base, em, journal, ""), em)
    ensures Cited(base, em, journal, n) == Cited(base, em, journal, "") + (if journal != "" && n != "" then ", " + n else "")
  {
    ConcatEnds(base, em);
    ConcatEnds(base, em + ", " + number);
    ConcatEnds(base, "");
    assert base + em + ", " + number == base + (em + ", " + number);
    assert base + "" == base;
  }

  /** The i-th paragraph of the Markdown page is the citation of the i-th publication in year order. */
  lemma {:induction false} MarkdownPartsAt(pubs: seq<Publication>, i: int)
    requires 0 <= i < |pubs|
    ensures MarkdownParts(pubs)[i] == MarkdownCitation(pubs[i])
    decreases |pubs|
  {
    if i < |pubs| - 1 {
      MarkdownPartsAt(pubs[..|pubs| - 1], i);
    }
  }

  /**
   * The Markdown page lists every publication exactly once, newest year
   * first, keeps the input order within a year, and ends with a newline;
   * with no publications it is a single newline.
   */
  lemma MarkdownPageLayout(pubs: seq<Publication>)
    ensures var s := SortDesc(pubs, YearOf);
            && SortedDesc(s, YearOf)
            && multiset(s) == multiset(pubs)
            && (forall y :: Filter(s, YearOf, y) == Filter(pubs, YearOf, y))
            && |MarkdownParts(s)| == |pubs|
            && (forall i :: 0 <= i < |s| ==> MarkdownParts(s)[i] == MarkdownCitation(s[i]))
    ensures MarkdownPage(pubs)[|MarkdownPage(pubs)| - 1] == '\n'
    ensures pubs == [] ==> MarkdownPage(pubs) == "\n"
  {
    var s := SortDesc(pubs, YearOf);
    SortDescSortedPermutation(pubs, YearOf);
    assert |s| == |pubs| by {
      assert |multiset(s)| == |multiset(pubs)|;
    }
    forall y ensures Filter(s, YearOf, y) == Filter(pubs, YearOf, y) {
      SortDescStable(pubs, YearOf, y);
    }
    forall i | 0 <= i < |s| ensures MarkdownParts(s)[i] == MarkdownCitation(s[i]) {
      MarkdownPartsAt(s, i);
    }
  }
}
