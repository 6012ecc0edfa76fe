/**
 * amplified_pdf-main/txt/KJV/merge.py: concatenates the King James book files of its folder
 * into kjv_full.txt, in the order of their leading book number, each book announced by a
 * divider line `=== <book name> ===`.
 */
module KjvMerge {
  import opened Wrappers
  import opened Text
  import opened BookFiles
  import Verses

  /** The file the script writes, in the folder it reads. */
  const OutputName: string := "kjv_full.txt"

  /** The text written before and after the book name of a divider. */
  const DividerOpen: string := "\n=== "
  const DividerClose: string := " ===\n\n"

  /** The first write for a book: its divider, with the blank lines around it. */
  function Divider(bookName: string): (r: string)
    ensures |r| == |bookName| + 11 && r[5..5 + |bookName|] == bookName
  {
    DividerOpen + bookName + DividerClose
  }

  /** `os.path.basename(filename).split(" - ")[0]`: the basename up to the first " - ". */
  function BookName(name: string): (r: string)
    ensures StartsWith(name, r)
    ensures forall i: nat :: i < |r| ==> !OccursAt(name, " - ", i)
  {
    BeforeFirst(name, " - ")
  }

  /** The book name keeps the number the sort reads: "1 Genesis - KJV.txt" is announced as
      "1 Genesis", not as "Genesis". */
  lemma BookNameKeepsNumber(name: string)
    ensures StartsWith(name, BookName(name))
    ensures StartsWith(BookName(name), LeadingToken(name))
    ensures BookName(name) == name || OccursAt(name, " - ", |BookName(name)|)
  {
    var b, t := BookName(name), LeadingToken(name);
    if b != name {
      assert name[|b|] == " - "[0];
      assert |t| <= |b|;
    }
    assert b[..|t|] == name[..|t|];
  }

  /** The divider line as it stands in kjv_full.txt, between the newlines around it. */
  function DividerLine(bookName: string): string
  {
    "=== " + bookName + " ==="
  }

  /** The divider stands on a line of its own, after an empty line and before one. */
  lemma DividerOnOwnLine(bookName: string)
    ensures Divider(bookName) == "\n" + DividerLine(bookName) + "\n\n"
  {
    var d, l := Divider(bookName), DividerLine(bookName);
    assert |d| == |l| + 3;
    forall k | 0 <= k < |d| ensures d[k] == ("\n" + l + "\n\n")[k] {
      if k < 5 {
      } else if k < 5 + |bookName| {
        assert d[k] == bookName[k - 5] == l[k - 1];
      }
    }
  }

  /** Read back by the web application, a divider line becomes the `<h2>` heading of the
      book name with `=` and spaces stripped from its ends, title-cased; a book name that
      neither starts nor ends with `=` or a space is its own heading. */
  lemma DividerLineBecomesHeading(bookName: string)
    ensures Verses.IsDivider(DividerLine(bookName))
    ensures Verses.FormatLine(DividerLine(bookName)) ==
      Verses.Wrap(Verses.BookDivider, Title(Strip(bookName, Verses.DividerEdge)))
    ensures NoEdgeIn(bookName, Verses.DividerEdge) ==>
      Verses.FormatLine(DividerLine(bookName)) == Verses.Wrap(Verses.BookDivider, Title(bookName))
  {
    var line := DividerLine(bookName);
    assert line[0] == '=' && line[|line| - 1] == '=';
    StripClean(line, Whitespace);
    assert line[..3] == "===";
    DividerLineStrip(bookName);
    if NoEdgeIn(bookName, Verses.DividerEdge) {
      StripClean(bookName, Verses.DividerEdge);
    }
  }

  /** Stripping `=` and spaces from a divider line strips them from its book name. */
  lemma DividerLineStrip(bookName: string)
    ensures Strip(DividerLine(bookName), Verses.DividerEdge) == Strip(bookName, Verses.DividerEdge)
  {
    var p, q := "=== ", " ===";
    assert DividerLine(bookName) == p + bookName + q;
    assert forall k :: 0 <= k < |p| ==> p[k] in Verses.DividerEdge;
    assert forall k :: 0 <= k < |q| ==> q[k] in Verses.DividerEdge;
    StripPadded(p, bookName, q, Verses.DividerEdge);
  }

  /** The merged file is not one the web application loads: every file it opens is named
      `verses_<translation>.txt`. */
  lemma OutputNotLoaded(translation: string)
    ensures Verses.VersesFileName(translation) != OutputName
  {
    assert Verses.VersesFileName(translation)[0] == 'v';
  }

  /** The script leaves its own output out of the merge, even when an earlier run left it in
      the folder. */
  lemma OutputNotMerged(content: string)
    ensures !IsBookFile(Entry(OutputName, content))
  {
    assert OutputName[0] == 'k';
  }

  /** What the loop writes for one book: the divider line, then the book's text and a
      newline. */
  function Chunk(e: Entry): (r: string)
    ensures |r| == |BookName(e.name)| + |e.content| + 12 && r[|r| - 1] == '\n'
  {
    Divider(BookName(e.name)) + (e.content + "\n")
  }

  /** The text of kjv_full.txt for books in this order. */
  function KjvText(books: seq<Entry>): (r: string)
    ensures r == [] <==> books == []
  {
    if books == [] then [] else KjvText(books[..|books| - 1]) + Chunk(books[|books| - 1])
  }

  /** The script: select the book files, sort them by number, then write each book in turn.
      A book whose first token is not an integer stops it before the output file is
      opened. */
  method MergeKjv(folder: seq<Entry>) returns (r: Result<string, MergeError>)
    ensures r.Err? <==> !AllKeyed(SelectBooks(folder))
    ensures r.Err? ==> r.error == SortBooks(SelectBooks(folder)).error
    ensures r.Ok? ==> r.value == KjvText(SortBooks(SelectBooks(folder)).value)
  {
    var sorted := SortBooks(SelectBooks(folder));
    if sorted.Err? {
      return Err(sorted.error);
    }
    var out := WriteKjv(sorted.value);
    return Ok(out);
  }

  /** The `with open(output_file, "w")` block: for each book, the divider, then its text. */
  method WriteKjv(books: seq<Entry>) returns (out: string)
    ensures out == KjvText(books)
  {
    out := [];
    var i := 0;
    while i < |books|
      invariant 0 <= i <= |books|
      invariant out == KjvText(books[..i])
    {
      var e := books[i];
      ghost var before := out;
      out := out + Divider(BookName(e.name));
      out := out + (e.content + "\n");
      ConcatAssoc(before, Divider(BookName(e.name)), e.content + "\n");
      assert books[..i + 1][..i] == books[..i];
      i := i + 1;
    }
    assert books[..i] == books;
  }

  lemma KjvTextSnoc(s: seq<Entry>, e: Entry)
    ensures KjvText(s + [e]) == KjvText(s) + Chunk(e)
  {
    assert (s + [e])[..|s|] == s;
  }

  /** Merging a list split in two writes the first part, then the second. */
  lemma {:induction false} KjvTextAppend(a: seq<Entry>, b: seq<Entry>)
    ensures KjvText(a + b) == KjvText(a) + KjvText(b)
  {
    if b == [] {
      assert a + b == a;
    } else {
      var c, e := b[..|b| - 1], b[|b| - 1];
      assert b == c + [e];
      assert a + b == (a + c) + [e];
      KjvTextAppend(a, c);
      KjvTextSnoc(a + c, e);
      KjvTextSnoc(c, e);
      ConcatAssoc(KjvText(a), KjvText(c), Chunk(e));
    }
  }

  /** The output is each book's chunk, in order: it starts with the first book's divider. */
  lemma KjvTextFirst(books: seq<Entry>)
    requires books != []
    ensures KjvText(books) == Chunk(books[0]) + KjvText(books[1..])
    ensures StartsWith(KjvText(books), Divider(BookName(books[0].name)))
  {
    KjvTextAppend([books[0]], books[1..]);
    assert [books[0]] + books[1..] == books;
    assert KjvText([books[0]]) == Chunk(books[0]) by {
      assert [books[0]][..0] == [];
    }
  }

  /** The size of kjv_full.txt: every book adds its name, its text and the twelve characters
      of the divider marks and the closing newline. */
  function KjvSize(books: seq<Entry>): nat
  {
    if books == [] then 0
    else KjvSize(books[..|books| - 1]) + |BookName(books[|books| - 1].name)| + |books[|books| - 1].content| + 12
  }

  lemma {:induction false} KjvTextLength(books: seq<Entry>)
    ensures |KjvText(books)| == KjvSize(books)
  {
    if books != [] {
      KjvTextLength(books[..|books| - 1]);
    }
  }

  /** A folder without book files gives an empty kjv_full.txt. */
  lemma NoBooksEmptyOutput(folder: seq<Entry>)
    requires forall e :: e in folder ==> !IsBookFile(e)
    ensures SortBooks(SelectBooks(folder)) == Ok([])
    ensures KjvText(SortBooks(SelectBooks(folder)).value) == []
  {
    if SelectBooks(folder) != [] {
      SelectBooksMembers(folder, SelectBooks(folder)[0]);
    }
  }

  /** When no two books share a number, the output does not depend on the order the folder
      lists its files in. */
  lemma KjvOrderIndependent(f1: seq<Entry>, f2: seq<Entry>)
    requires multiset(f1) == multiset(f2)
    requires DistinctKeys(SelectBooks(f1))
    ensures AllKeyed(SelectBooks(f1)) <==> AllKeyed(SelectBooks(f2))
    ensures AllKeyed(SelectBooks(f1)) ==>
      KjvText(SortBooks(SelectBooks(f1)).value) == KjvText(SortBooks(SelectBooks(f2)).value)
  {
    SortedBooksOrderIndependent(f1, f2);
  }
}
