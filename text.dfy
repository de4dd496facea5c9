/**
 * The few Python `str` operations the scripts rely on, written out so that
 * their edge cases are explicit: `split(sep)`, `split()`, `strip()`,
 * `sep.join(parts)`, `startswith`, slicing with negative bounds, `isdigit()`,
 * `int(s)` and `str(n)`.
 */
module Text {
  import opened Wrappers

  /** The two output formats that name formatting distinguishes. */
  datatype Markup = Html | Markdown

  /** Python's `str.isspace()` for one character. */
  predicate IsSpace(c: char) {
    c == ' ' || ('\t' <= c <= '\r') || ('\U{1c}' <= c <= '\U{1f}')
    || c == '\U{85}' || c == '\U{a0}' || c == '\U{1680}'
    || ('\U{2000}' <= c <= '\U{200a}') || c == '\U{2028}' || c == '\U{2029}'
    || c == '\U{202f}' || c == '\U{205f}' || c == '\U{3000}'
  }

  predicate AllSpace(s: string) {
    forall i :: 0 <= i < |s| ==> IsSpace(s[i])
  }

  /** A token of `str.split()`: non-empty and free of whitespace. */
  predicate IsWord(w: string) {
    |w| > 0 && forall i :: 0 <= i < |w| ==> !IsSpace(w[i])
  }

  /** Every element is a token of `str.split()`. */
  predicate AllWords(ws: seq<string>) {
    forall i :: 0 <= i < |ws| ==> IsWord(ws[i])
  }

  predicate StartsWith(s: string, prefix: string) {
    |prefix| <= |s| && s[..|prefix|] == prefix
  }

  predicate EndsWith(s: string, suffix: string) {
    |suffix| <= |s| && s[|s| - |suffix|..] == suffix
  }

  /** A concatenation starts with its first part and ends with its last. */
  lemma ConcatEnds(a: string, b: string)
    ensures StartsWith(a + b, a) && EndsWith(a + b, b)
  {
    assert (a + b)[..|a|] == a;
    assert (a + b)[|a + b| - |b|..] == b;
  }

  // ---------------------------------------------------------------- strip

  /** The number of whitespace characters that start `s`. */
  function LeadingSpaces(s: string): (n: nat)
    ensures n <= |s|
    ensures forall i :: 0 <= i < n ==> IsSpace(s[i])
    ensures n < |s| ==> !IsSpace(s[n])
  {
    if s != "" && IsSpace(s[0]) then 1 + LeadingSpaces(s[1..]) else 0
  }

  /** The number of whitespace characters that end `s`. */
  function TrailingSpaces(s: string): (n: nat)
    ensures n <= |s|
    ensures forall i :: |s| - n <= i < |s| ==> IsSpace(s[i])
    ensures n < |s| ==> !IsSpace(s[|s| - 1 - n])
  {
    if s != "" && IsSpace(s[|s| - 1]) then 1 + TrailingSpaces(s[..|s| - 1]) else 0
  }

  /** Python's `s.strip()`: drop leading and trailing whitespace. */
  function Strip(s: string): (r: string)
    ensures |r| <= |s|
    ensures r == "" <==> AllSpace(s)
    ensures r != "" ==> !IsSpace(r[0]) && !IsSpace(r[|r| - 1])
    ensures s != "" && !IsSpace(s[0]) && !IsSpace(s[|s| - 1]) ==> r == s
    ensures forall c :: c in r ==> c in s
  {
    var a := LeadingSpaces(s);
    if a == |s| then ""
    else
      var b := |s| - TrailingSpaces(s);
      assert a < b;
      s[a..b]
  }

  lemma ConcatAssoc<T>(a: seq<T>, b: seq<T>, c: seq<T>)
    ensures a + b + c == a + (b + c)
  {
  }

  // ---------------------------------------------------------------- join

  /** Python's `sep.join(parts)`. */
  function Join(sep: string, parts: seq<string>): string {
    if |parts| == 0 then ""
    else if |parts| == 1 then parts[0]
    else parts[0] + sep + Join(sep, parts[1..])
  }

  lemma JoinCons(sep: string, a: string, b: string, rest: seq<string>)
    ensures Join(sep, [a + b] + rest) == a + Join(sep, [b] + rest)
  {
    if |rest| > 0 {
      assert ([a + b] + rest)[1..] == rest;
      assert ([b] + rest)[1..] == rest;
    }
  }

  // ---------------------------------------------------------------- split(sep)

  /**
   * Python's `s.split(sep)` for a non-empty separator: cut at every
   * occurrence found scanning left to right; never an empty list.
   */
  function Split(s: string, sep: string): (r: seq<string>)
    requires sep != ""
    ensures |r| >= 1
    decreases |s|
  {
    if |s| < |sep| then [s]
    else if s[..|sep|] == sep then [""] + Split(s[|sep|..], sep)
    else
      var rest := Split(s[1..], sep);
      [[s[0]] + rest[0]] + rest[1..]
  }

  /** Joining the pieces of a split with the same separator gives the input back. */
  lemma {:induction false} SplitJoin(s: string, sep: string)
    requires sep != ""
    ensures Join(sep, Split(s, sep)) == s
    decreases |s|
  {
    if |s| < |sep| {
    } else if s[..|sep|] == sep {
      var rest := Split(s[|sep|..], sep);
      SplitJoin(s[|sep|..], sep);
      assert ([""] + rest)[1..] == rest;
      assert s == sep + s[|sep|..];
    } else {
      var rest := Split(s[1..], sep);
      SplitJoin(s[1..], sep);
      JoinCons(sep, [s[0]], rest[0], rest[1..]);
      assert [rest[0]] + rest[1..] == rest;
      assert s == [s[0]] + s[1..];
    }
  }

  /** No piece of a split on a single character contains that character. */
  lemma {:induction false} SplitPiecesAvoidSeparator(s: string, c: char)
    ensures forall p :: p in Split(s, [c]) ==> c !in p
    decreases |s|
  {
    if |s| < 1 {
    } else if s[..1] == [c] {
      SplitPiecesAvoidSeparator(s[1..], c);
    } else {
      SplitPiecesAvoidSeparator(s[1..], c);
      var rest := Split(s[1..], [c]);
      assert rest[0] in rest;
      forall p | p in Split(s, [c]) ensures c !in p {
        if p != [s[0]] + rest[0] {
          assert p in rest[1..];
        }
      }
    }
  }

  /** A string without the separator character is split into itself alone. */
  lemma {:induction false} SplitWithoutSeparator(s: string, c: char)
    requires c !in s
    ensures Split(s, [c]) == [s]
    decreases |s|
  {
    if |s| >= 1 {
      assert s[0] != c;
      assert s[..1] != [c];
      SplitWithoutSeparator(s[1..], c);
      assert [s[0]] + s[1..] == s;
    }
  }

  /** Splitting `a + c + b` on `c`, where `a` has no `c`, cuts exactly after `a`. */
  lemma {:induction false} SplitAtFirst(a: string, c: char, b: string)
    requires c !in a
    ensures Split(a + [c] + b, [c]) == [a] + Split(b, [c])
    decreases |a|
  {
    var s := a + [c] + b;
    if a == [] {
      assert s[..1] == [c];
      assert s[1..] == b;
    } else {
      assert s[0] == a[0] != c;
      assert s[..1] != [c];
      assert s[1..] == a[1..] + [c] + b;
      SplitAtFirst(a[1..], c, b);
      assert [a[0]] + a[1..] == a;
    }
  }

  /**
   * Splitting on a character undoes joining on it, when no part contains
   * the character.
   */
  lemma {:induction false} SplitOfJoin(parts: seq<string>, c: char)
    requires |parts| >= 1
    requires forall i :: 0 <= i < |parts| ==> c !in parts[i]
    ensures Split(Join([c], parts), [c]) == parts
    decreases |parts|
  {
    if |parts| == 1 {
      SplitWithoutSeparator(parts[0], c);
    } else {
      var rest := parts[1..];
      SplitOfJoin(rest, c);
      SplitAtFirst(parts[0], c, Join([c], rest));
      assert parts == [parts[0]] + rest;
    }
  }

  /** `prefix + p` for every `p`. */
  function PrefixEach(prefix: string, parts: seq<string>): (r: seq<string>)
    ensures |r| == |parts|
  {
    seq(|parts|, i requires 0 <= i < |parts| => prefix + parts[i])
  }

  lemma ConsPrefixEachAt(prefix: string, parts: seq<string>, i: int)
    requires 0 < i < |parts|
    ensures ([parts[0]] + PrefixEach(prefix, parts[1..]))[i] == prefix + parts[i]
  {
    assert parts[1..][i - 1] == parts[i];
  }

  /**
   * Joining on `a + b` is joining on `a` once every part after the first
   * carries the prefix `b`.
   */
  lemma {:induction false} JoinRegroup(a: string, b: string, parts: seq<string>)
    requires |parts| >= 1
    ensures Join(a + b, parts) == Join(a, [parts[0]] + PrefixEach(b, parts[1..]))
    decreases |parts|
  {
    if |parts| > 1 {
      var rest := parts[1..];
      JoinRegroup(a, b, rest);
      var tail := PrefixEach(b, rest[1..]);
      assert PrefixEach(b, rest) == [b + rest[0]] + tail;
      JoinCons(a, b, rest[0], tail);
      assert ([parts[0]] + PrefixEach(b, rest))[1..] == PrefixEach(b, rest);
    }
  }

  lemma CommaSpace()
    ensures ", " == "," + " "
  {
  }

  /**
   * Joining names without commas on ", " and splitting on "," gives the
   * first name and every later one behind a space.
   */
  lemma SplitOfCommaJoin(fs: seq<string>)
    requires |fs| >= 1
    requires forall i :: 0 <= i < |fs| ==> ',' !in fs[i]
    ensures Split(Join(", ", fs), ",") == [fs[0]] + PrefixEach(" ", fs[1..])
  {
    var spaced := [fs[0]] + PrefixEach(" ", fs[1..]);
    CommaSpace();
    JoinRegroup(",", " ", fs);
    forall i | 0 <= i < |spaced| ensures ',' !in spaced[i] {
      if i > 0 {
        ConsPrefixEachAt(" ", fs, i);
      }
    }
    SplitOfJoin(spaced, ',');
  }

  // ---------------------------------------------------------------- split()

  /** Length of the run of non-whitespace characters that starts `s`. */
  function WordLength(s: string): (n: nat)
    ensures n <= |s|
    ensures forall i :: 0 <= i < n ==> !IsSpace(s[i])
    ensures n < |s| ==> IsSpace(s[n])
  {
    if s == [] || IsSpace(s[0]) then 0 else 1 + WordLength(s[1..])
  }

  /** Python's `s.split()`: the maximal whitespace-free runs, in order. */
  function Words(s: string): (r: seq<string>)
    ensures AllWords(r)
    decreases |s|
  {
    if s == [] then []
    else if IsSpace(s[0]) then Words(s[1..])
    else
      var n := WordLength(s);
      [s[..n]] + Words(s[n..])
  }

  lemma {:induction false} WordLengthOfWord(w: string, rest: string)
    requires IsWord(w) && (rest == [] || IsSpace(rest[0]))
    ensures WordLength(w + rest) == |w|
    decreases |w|
  {
    var s := w + rest;
    if |w| > 1 {
      assert s[1..] == w[1..] + rest;
      WordLengthOfWord(w[1..], rest);
    } else {
      assert s[1..] == rest;
    }
  }

  /** `split()` undoes a single-space join of words. */
  lemma {:induction false} WordsOfJoin(ws: seq<string>)
    requires AllWords(ws)
    ensures Words(Join(" ", ws)) == ws
    decreases |ws|
  {
    if |ws| == 0 {
    } else if |ws| == 1 {
      WordLengthOfWord(ws[0], "");
      assert ws[0][..|ws[0]|] == ws[0];
      assert ws[0][|ws[0]|..] == [];
    } else {
      var w, j := ws[0], Join(" ", ws[1..]);
      var s := w + " " + j;
      assert s == w + (" " + j);
      WordLengthOfWord(w, " " + j);
      assert s[..|w|] == w;
      var t := s[|w|..];
      assert t == " " + j;
      assert t[1..] == j;
      WordsOfJoin(ws[1..]);
      assert Words(t) == Words(j);
      assert ws == [ws[0]] + ws[1..];
    }
  }

  /** The tokens of `split()` hold only characters of the input. */
  lemma {:induction false} WordsAvoid(s: string, c: char)
    requires c !in s
    ensures forall i :: 0 <= i < |Words(s)| ==> c !in Words(s)[i]
    decreases |s|
  {
    if s != [] {
      WordsAvoid(s[1..], c);
      var n := WordLength(s);
      if !IsSpace(s[0]) {
        assert c !in s[n..];
        WordsAvoid(s[n..], c);
        assert c !in s[..n];
      }
    }
  }

  /** A single whitespace-free token is its own `split()`. */
  lemma WordsOfWord(w: string)
    requires IsWord(w)
    ensures Words(w) == [w]
  {
    assert AllWords([w]);
    WordsOfJoin([w]);
  }

  /** Non-empty, with no whitespace at either end: what `strip()` leaves of a non-blank string. */
  predicate Trimmed(w: string) {
    w != "" && !IsSpace(w[0]) && !IsSpace(w[|w| - 1])
  }

  lemma StripTrimmed(w: string)
    requires Trimmed(w)
    ensures Strip(w) == w
    ensures Strip(" " + w) == w
  {
    var s := " " + w;
    assert s[1..] == w;
    assert LeadingSpaces(s) == 1;
    assert s[..|s| - 1] == " " + w[..|w| - 1];
    assert TrailingSpaces(s) == 0;
  }

  /** `int()` ignores surrounding whitespace: parsing a string and parsing its stripped form agree. */
  lemma ParseIntOfStripped(s: string)
    ensures ParseInt(s) == ParseInt(Strip(s))
  {
    StripTrimmedOrEmpty(Strip(s));
  }

  /** A stripped string strips to itself. */
  lemma StripTrimmedOrEmpty(t: string)
    requires t == "" || Trimmed(t)
    ensures Strip(t) == t
  {
    if t != "" {
      StripTrimmed(t);
    }
  }

  /** Python's `[p.strip() for p in parts]`. */
  function StripAll(parts: seq<string>): seq<string> {
    seq(|parts|, i requires 0 <= i < |parts| => Strip(parts[i]))
  }

  // ---------------------------------------------------------------- slicing

  function Clamp(i: int, n: nat): (r: nat)
    ensures r <= n
  {
    if i < 0 then 0 else if i > n then n else i
  }

  /** Python's `s[start:stop]`, negative bounds counting from the end. */
  function PySlice(s: string, start: int, stop: int): (r: string)
    ensures |r| <= |s|
  {
    var a := Clamp(if start < 0 then start + |s| else start, |s|);
    var b := Clamp(if stop < 0 then stop + |s| else stop, |s|);
    if a < b then s[a..b] else ""
  }

  // ---------------------------------------------------------------- digits

  predicate IsDigit(c: char) {
    '0' <= c <= '9'
  }

  /** Python's `s.isdigit()`, for ASCII digits. */
  predicate IsDigits(s: string) {
    |s| > 0 && forall i :: 0 <= i < |s| ==> IsDigit(s[i])
  }

  function DigitValue(c: char): nat
    requires IsDigit(c)
  {
    (c as int - '0' as int) as nat
  }

  function DigitChar(d: nat): (c: char)
    requires d < 10
    ensures IsDigit(c) && DigitValue(c) == d
  {
    ('0' as int + d) as char
  }

  /** Decimal value of a digit string, read left to right. */
  function DigitsValue(s: string): nat
    requires forall i :: 0 <= i < |s| ==> IsDigit(s[i])
  {
    if s == [] then 0 else 10 * DigitsValue(s[..|s| - 1]) + DigitValue(s[|s| - 1])
  }

  /** Python's `str(n)` for a non-negative integer. */
  function NatToString(n: nat): (r: string)
    ensures IsDigits(r)
  {
    if n < 10 then [DigitChar(n)] else NatToString(n / 10) + [DigitChar(n % 10)]
  }

  /** Python's `str(n)` (and an f-string `{n}`) for an integer. */
  function IntToString(n: int): (r: string)
    ensures r != ""
  {
    if n < 0 then "-" + NatToString(-n) else NatToString(n)
  }

  /**
   * Python's `int(s)` on a string: surrounding whitespace, an optional sign,
   * then one or more digits; anything else raises, modelled as `None`.
   */
  function ParseInt(s: string): Option<int> {
    var t := Strip(s);
    if t != "" && (t[0] == '-' || t[0] == '+') then
      if IsDigits(t[1..]) then
        var v: int := DigitsValue(t[1..]);
        Some(if t[0] == '-' then -v else v)
      else None
    else if IsDigits(t) then Some(DigitsValue(t))
    else None
  }

  lemma {:induction false} DigitsValueOfNatToString(n: nat)
    ensures DigitsValue(NatToString(n)) == n
    decreases n
  {
    var r := NatToString(n);
    if n >= 10 {
      DigitsValueOfNatToString(n / 10);
      assert r[..|r| - 1] == NatToString(n / 10);
    }
  }

  /** `int(str(n)) == n`: reading back a printed integer gives the integer. */
  lemma ParseIntOfIntToString(n: int)
    ensures ParseInt(IntToString(n)) == Some(n)
  {
    var r := IntToString(n);
    if n < 0 {
      var d := NatToString(-n);
      assert r == "-" + d;
      assert IsDigit(d[|d| - 1]);
      assert r[|r| - 1] == d[|d| - 1];
      assert Strip(r) == r;
      assert r[1..] == d;
      DigitsValueOfNatToString(-n);
    } else {
      assert IsDigit(r[0]) && IsDigit(r[|r| - 1]);
      assert Strip(r) == r;
      assert !(r[0] == '-' || r[0] == '+');
      DigitsValueOfNatToString(n);
    }
  }
}
