/**
 * The verse helpers of the web application (app.py): loading the cleaned lines of a
 * translation's verse file, turning one line into an HTML fragment, the keyword and
 * book-name filters of the two search routes, and the choice of the daily verse.
 * The file system is a map from file name to the file's lines.
 */
module Verses {
  import opened Wrappers
  import opened Text

  /** The file `load_verses` opens for a translation. */
  function VersesFileName(translation: string): (r: string)
    ensures |r| == |translation| + 11
    ensures r[..7] == "verses_" && r[|r| - 4..] == ".txt"
    ensures r[7..|r| - 4] == Lower(translation)
  {
    "verses_" + Lower(translation) + ".txt"
  }

  /** Two translation names open the same file exactly when they agree up to case. */
  lemma VersesFileNameIgnoresCase(a: string, b: string)
    ensures VersesFileName(a) == VersesFileName(b) <==> Lower(a) == Lower(b)
  {
    var fa, fb := VersesFileName(a), VersesFileName(b);
    if fa == fb {
      assert Lower(a) == fa[7..|fa| - 4] == fb[7..|fb| - 4] == Lower(b);
    }
  }

  /** The stripped form of a line, as `line.strip()` gives it. */
  function StripLine(line: string): string
  {
    Strip(line, Whitespace)
  }

  /** The lines `load_verses` keeps, each stripped, in file order. */
  function CleanLines(lines: seq<string>): (r: seq<string>)
    ensures |r| <= |lines|
    ensures forall v :: v in r ==> v != [] && NoEdgeIn(v, Whitespace)
  {
    if lines == [] then []
    else
      var s := StripLine(lines[0]);
      var rest := CleanLines(lines[1..]);
      if s == [] then rest
      else
        assert forall v :: v in [s] + rest ==> v == s || v in rest;
        [s] + rest
  }

  /** `load_verses(translation)`: the cleaned lines of the translation's file, or no lines
      when the file does not exist. */
  function LoadVerses(files: map<string, seq<string>>, translation: string): (r: seq<string>)
    ensures VersesFileName(translation) !in files ==> r == []
    ensures VersesFileName(translation) in files ==> r == CleanLines(files[VersesFileName(translation)])
  {
    var name := VersesFileName(translation);
    if name in files then CleanLines(files[name]) else []
  }

  /** Cleaning a file made of two parts cleans each part in place: order is kept. */
  lemma {:induction false} CleanLinesAppend(a: seq<string>, b: seq<string>)
    ensures CleanLines(a + b) == CleanLines(a) + CleanLines(b)
  {
    if a == [] {
      assert a + b == b;
    } else {
      assert (a + b)[0] == a[0];
      assert (a + b)[1..] == a[1..] + b;
      CleanLinesAppend(a[1..], b);
    }
  }

  /** A line is loaded exactly when it is the non-empty stripped form of some line of the file. */
  lemma {:induction false} CleanLinesMembers(lines: seq<string>, v: string)
    ensures v in CleanLines(lines) <==> v != [] && exists l :: l in lines && StripLine(l) == v
  {
    if lines != [] {
      CleanLinesMembers(lines[1..], v);
      assert forall l :: l in lines <==> l == lines[0] || l in lines[1..];
    }
  }

  /** Cleaning lines that are already clean changes nothing. */
  lemma {:induction false} CleanLinesIdempotent(lines: seq<string>)
    ensures CleanLines(CleanLines(lines)) == CleanLines(lines)
  {
    if lines != [] {
      CleanLinesIdempotent(lines[1..]);
      var s := StripLine(lines[0]);
      if s != [] {
        StripIdempotent(lines[0], Whitespace);
        assert ([s] + CleanLines(lines[1..]))[1..] == CleanLines(lines[1..]);
      }
    }
  }

  const H2Open := "<h2 style='color:darkblue'>"
  const H2Close := "</h2>"
  const H3Open := "<h3 style='color:green'>"
  const H3Close := "</h3>"
  const POpen := "<p>"
  const PClose := "</p>"

  /** The characters `line.strip("= ")` removes from a book divider. */
  const DividerEdge: set<char> := {'=', ' '}

  /** A book divider: the stripped line starts with "===". */
  predicate IsDivider(line: string)
  {
    StartsWith(StripLine(line), "===")
  }

  /** A translation title: the stripped line names one of the two translations. */
  predicate IsTranslationTitle(line: string)
  {
    var s := StripLine(line);
    Contains(s, "World English Bible") || Contains(s, "King James Version")
  }

  /** The book name of a divider line: `=` and spaces stripped from both ends, title-cased. */
  function DividerHeading(line: string): string
  {
    Title(Strip(StripLine(line), DividerEdge))
  }

  /** The three fragments `format_line` produces. */
  datatype LineKind = BookDivider | TranslationTitle | VerseText

  /** The branch `format_line` takes for a line; the divider test is made first. */
  function KindOf(line: string): LineKind
  {
    if IsDivider(line) then BookDivider
    else if IsTranslationTitle(line) then TranslationTitle
    else VerseText
  }

  /** The HTML element of each kind around its text. */
  function Wrap(kind: LineKind, text: string): string
  {
    match kind
    case BookDivider => H2Open + text + H2Close
    case TranslationTitle => H3Open + text + H3Close
    case VerseText => POpen + text + PClose
  }

  /** The first three characters of each kind's element. */
  function OpenTag(kind: LineKind): string
  {
    match kind
    case BookDivider => "<h2"
    case TranslationTitle => "<h3"
    case VerseText => "<p>"
  }

  /** `format_line(line)`: the fragment opens with the tag of the branch the line takes. */
  function FormatLine(line: string): (r: string)
    ensures StartsWith(r, OpenTag(KindOf(line)))
  {
    if IsDivider(line) then
      WrapOpensWith(BookDivider, DividerHeading(line), BookDivider);
      Wrap(BookDivider, DividerHeading(line))
    else if IsTranslationTitle(line) then
      WrapOpensWith(TranslationTitle, StripLine(line), TranslationTitle);
      Wrap(TranslationTitle, StripLine(line))
    else
      WrapOpensWith(VerseText, StripLine(line), VerseText);
      Wrap(VerseText, StripLine(line))
  }

  /** The opening of a wrapped fragment tells its kind, whatever the text inside. */
  lemma WrapOpensWith(kind: LineKind, text: string, other: LineKind)
    ensures StartsWith(Wrap(kind, text), OpenTag(other)) <==> kind == other
  {
    var r := Wrap(kind, text);
    match kind {
      case BookDivider =>
        assert r == H2Open + (text + H2Close);
        PrefixOfConcat(H2Open, text + H2Close, 3);
      case TranslationTitle =>
        assert r == H3Open + (text + H3Close);
        PrefixOfConcat(H3Open, text + H3Close, 3);
      case VerseText =>
        assert r == POpen + (text + PClose);
        PrefixOfConcat(POpen, text + PClose, 3);
    }
    assert OpenTag(BookDivider)[2] == '2' && OpenTag(TranslationTitle)[2] == '3';
    assert OpenTag(VerseText)[1] == 'p' && OpenTag(BookDivider)[1] == 'h' && OpenTag(TranslationTitle)[1] == 'h';
  }

  lemma PrefixOfConcat(a: string, b: string, n: nat)
    requires n <= |a|
    ensures (a + b)[..n] == a[..n]
  {
  }

  /** Every line becomes exactly one of the three fragments, and which one is decided by the
      divider test first, then the translation-title test: a divider that names a translation
      is still a heading. */
  lemma FormatLineKinds(line: string)
    ensures forall kind :: StartsWith(FormatLine(line), OpenTag(kind)) <==> kind == KindOf(line)
    ensures KindOf(line) == BookDivider <==> IsDivider(line)
    ensures KindOf(line) == TranslationTitle <==> !IsDivider(line) && IsTranslationTitle(line)
    ensures KindOf(line) == VerseText <==> !IsDivider(line) && !IsTranslationTitle(line)
  {
    var text := if IsDivider(line) then DividerHeading(line) else StripLine(line);
    assert FormatLine(line) == Wrap(KindOf(line), text);
    forall kind ensures StartsWith(FormatLine(line), OpenTag(kind)) <==> kind == KindOf(line) {
      WrapOpensWith(KindOf(line), text, kind);
    }
  }

  /** A divider becomes an `<h2>` element around a heading `h`: the line without its
      surrounding whitespace starts with "===", and `h` is the title-cased text left when
      `=` and spaces are removed from both ends of it. */
  lemma DividerFragment(line: string)
    requires IsDivider(line)
    ensures exists s: string, i: nat, n: string, j: nat ::
      Pads(line, s, i, Whitespace) && NoEdgeIn(s, Whitespace) && StartsWith(s, "===") &&
      Pads(s, n, j, DividerEdge) && NoEdgeIn(n, DividerEdge) &&
      exists h: string ::
        FormatLine(line) == H2Open + h + H2Close && Lower(h) == Lower(n) && Title(h) == h
  {
    var s := StripLine(line);
    var i: nat :| Pads(line, s, i, Whitespace);
    var n := Strip(s, DividerEdge);
    var j: nat :| Pads(s, n, j, DividerEdge);
    var h := DividerHeading(line);
    DividerHeadingText(line);
    assert FormatLine(line) == H2Open + h + H2Close;
    assert Pads(line, s, i, Whitespace) && NoEdgeIn(s, Whitespace) && StartsWith(s, "===") &&
      Pads(s, n, j, DividerEdge) && NoEdgeIn(n, DividerEdge) &&
      FormatLine(line) == H2Open + h + H2Close && Lower(h) == Lower(n) && Title(h) == h;
  }

  /** The heading of a divider is the line without its `=`/space edges, in title case: equal
      to that text up to case, with no `=` or space at either end, and at least the three
      leading `=` shorter than the stripped line. */
  lemma DividerHeadingText(line: string)
    requires IsDivider(line)
    ensures Lower(DividerHeading(line)) == Lower(Strip(StripLine(line), DividerEdge))
    ensures Title(DividerHeading(line)) == DividerHeading(line)
    ensures NoEdgeIn(DividerHeading(line), DividerEdge)
    ensures |DividerHeading(line)| + 3 <= |StripLine(line)|
  {
    var s := StripLine(line);
    var n := Strip(s, DividerEdge);
    TitleIdempotent(n);
    TitleKeepsLetters(n, DividerEdge);
    DividerMarkStripped(s);
  }

  /** Stripping `=` and spaces from a line that starts with "===" removes at least those three. */
  lemma DividerMarkStripped(s: string)
    requires StartsWith(s, "===")
    ensures |Strip(s, DividerEdge)| + 3 <= |s|
  {
    var n := Strip(s, DividerEdge);
    var i: nat :| Pads(s, n, i, DividerEdge);
    if |n| > 0 {
      assert s[..3] == "===";
      assert s[0] == '=' && s[1] == '=' && s[2] == '=';
      assert i >= 3;
    }
  }

  /** Any other line keeps its exact stripped text inside `<h3>` (a translation title) or
      `<p>` (a verse). */
  lemma OtherLineFragment(line: string)
    requires !IsDivider(line)
    ensures exists t: string, i: nat ::
      Pads(line, t, i, Whitespace) && NoEdgeIn(t, Whitespace) &&
      FormatLine(line) == (if IsTranslationTitle(line) then H3Open + t + H3Close else POpen + t + PClose)
  {
    var t := StripLine(line);
    var i: nat :| Pads(line, t, i, Whitespace);
    assert FormatLine(line) == (if IsTranslationTitle(line) then H3Open + t + H3Close else POpen + t + PClose);
  }

  /** Surrounding whitespace does not change the fragment: formatting a loaded (already
      stripped) verse is formatting its raw line. */
  lemma FormatLineIgnoresPadding(line: string)
    ensures FormatLine(StripLine(line)) == FormatLine(line)
  {
    var s := StripLine(line);
    StripIdempotent(line, Whitespace);
    assert StripLine(s) == s;
    assert IsDivider(s) == IsDivider(line);
    assert IsTranslationTitle(s) == IsTranslationTitle(line);
    assert DividerHeading(s) == DividerHeading(line);
  }

  /** The `/verses` page: every loaded line formatted, in order. */
  function FormatAll(verses: seq<string>): (r: seq<string>)
    ensures |r| == |verses| && forall i :: 0 <= i < |verses| ==> r[i] == FormatLine(verses[i])
  {
    seq(|verses|, i requires 0 <= i < |verses| => FormatLine(verses[i]))
  }

  lemma FormatAllAppend(lines: seq<string>, v: string)
    ensures FormatAll(lines + [v]) == FormatAll(lines) + [FormatLine(v)]
  {
  }

  /** `needle in v.lower()`: the search test, with `needle` already lowercased by the route. */
  predicate Matches(v: string, needle: string)
  {
    Contains(Lower(v), needle)
  }

  /** The lines the search loops keep: those whose lowercased text contains `needle`, in order. */
  function MatchingLines(verses: seq<string>, needle: string): (r: seq<string>)
    ensures |r| <= |verses|
  {
    if verses == [] then []
    else
      var last := verses[|verses| - 1];
      MatchingLines(verses[..|verses| - 1], needle) + (if Matches(last, needle) then [last] else [])
  }

  /** A line is a result exactly when it is a loaded line containing the needle. */
  lemma {:induction false} MatchingLinesMembers(verses: seq<string>, needle: string, v: string)
    ensures v in MatchingLines(verses, needle) <==> v in verses && Matches(v, needle)
  {
    if verses != [] {
      var init := verses[..|verses| - 1];
      MatchingLinesMembers(init, needle, v);
      assert verses == init + [verses[|verses| - 1]];
    }
  }

  /** Filtering two parts of the list filters each in place: results keep the input order. */
  lemma {:induction false} MatchingLinesAppend(a: seq<string>, b: seq<string>, needle: string)
    ensures MatchingLines(a + b, needle) == MatchingLines(a, needle) + MatchingLines(b, needle)
  {
    if b == [] {
      assert a + b == a;
    } else {
      var init := b[..|b| - 1];
      assert (a + b)[..|a + b| - 1] == a + init;
      MatchingLinesAppend(a, init, needle);
    }
  }

  /** An empty keyword is contained in every line, so every line is a result. */
  lemma {:induction false} EmptyNeedleMatchesAll(verses: seq<string>)
    ensures MatchingLines(verses, "") == verses
  {
    if verses != [] {
      var last := verses[|verses| - 1];
      assert OccursAt(Lower(last), "", 0);
      EmptyNeedleMatchesAll(verses[..|verses| - 1]);
    }
  }

  /** The match ignores case: a line that contains the keyword as typed is always found. */
  lemma ExactMatchIsFound(v: string, keyword: string)
    requires Contains(v, keyword)
    ensures Matches(v, Lower(keyword))
  {
    var i: nat :| OccursAt(v, keyword, i);
    assert Lower(v)[i..i + |keyword|] == Lower(keyword);
    assert OccursAt(Lower(v), Lower(keyword), i);
  }

  /** The loop shared by `search` and `search_book`: append the fragment of every line whose
      lowercased text contains `needle`. */
  method CollectMatches(verses: seq<string>, needle: string) returns (results: seq<string>)
    ensures results == FormatAll(MatchingLines(verses, needle))
  {
    results := [];
    var i := 0;
    while i < |verses|
      invariant 0 <= i <= |verses|
      invariant results == FormatAll(MatchingLines(verses[..i], needle))
    {
      var v := verses[i];
      assert verses[..i + 1][..i] == verses[..i];
      ghost var before := MatchingLines(verses[..i], needle);
      assert MatchingLines(verses[..i + 1], needle)
        == before + (if Matches(v, needle) then [v] else []);
      if Matches(v, needle) {
        FormatAllAppend(before, v);
        results := results + [FormatLine(v)];
      }
      i := i + 1;
    }
    assert verses[..i] == verses;
  }

  /** The results of the `/search` route: none for a GET; for a POST the fragments of the lines
      containing the lowercased `keyword` field (an absent field is the empty keyword). */
  method Search(verses: seq<string>, posted: bool, keyword: Option<string>) returns (results: seq<string>)
    ensures !posted ==> results == []
    ensures posted ==> results == FormatAll(MatchingLines(verses, Lower(keyword.GetOr(""))))
  {
    results := [];
    if posted {
      var needle := Lower(keyword.GetOr(""));
      results := CollectMatches(verses, needle);
    }
  }

  /** The results of the `/search_book` route, filtering on the `bookname` field. */
  method SearchBook(verses: seq<string>, posted: bool, bookname: Option<string>) returns (results: seq<string>)
    ensures !posted ==> results == []
    ensures posted ==> results == FormatAll(MatchingLines(verses, Lower(bookname.GetOr(""))))
    ensures |results| <= |verses|
  {
    results := [];
    if posted {
      var needle := Lower(bookname.GetOr(""));
      results := CollectMatches(verses, needle);
    }
  }

  /** A search with an empty keyword shows the same fragments as the `/verses` page. */
  lemma EmptyKeywordShowsAll(verses: seq<string>)
    ensures FormatAll(MatchingLines(verses, Lower(""))) == FormatAll(verses)
  {
    assert Lower("") == "";
    EmptyNeedleMatchesAll(verses);
  }

  const NoVersesFound := "No verses found."

  /** The daily verse: any one of the loaded lines (`random.choice`), or the sentinel when
      there are none. */
  method DailyVerse(verses: seq<string>) returns (v: string)
    ensures verses == [] ==> v == NoVersesFound
    ensures verses != [] ==> v in verses
  {
    if verses == [] {
      v := NoVersesFound;
    } else {
      assert verses[0] in verses;
      v :| v in verses;
    }
  }
}
