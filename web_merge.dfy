/**
 * amplified_pdf-main/txt/WEB/merge_web.py: concatenates the World English Bible book files of
 * its folder into verses_web.txt, in the order of their leading book number, with no divider
 * between books.
 */
module WebMerge {
  import opened Wrappers
  import opened Text
  import opened BookFiles
  import Verses

  /** The file the script writes, in the folder it reads. */
  const OutputName: string := "verses_web.txt"

  /** The merged file has the name the web application opens for the "WEB" translation (the
      script writes it into its own folder, the application opens it in its working
      directory). */
  lemma OutputIsLoaded()
    ensures Verses.VersesFileName("WEB") == OutputName
    ensures Verses.VersesFileName("web") == OutputName
  {
    assert Lower("WEB") == "web";
    assert Lower("web") == "web";
  }

  /** The script leaves its own output out of the merge, even when an earlier run left it in
      the folder. */
  lemma OutputNotMerged(content: string)
    ensures !IsBookFile(Entry(OutputName, content))
  {
    assert OutputName[0] == 'v';
  }

  /** The text of verses_web.txt for books in this order: each book's text and a newline. */
  function WebText(books: seq<Entry>): (r: string)
    ensures r == [] <==> books == []
    ensures books != [] ==> r[|r| - 1] == '\n'
  {
    if books == [] then [] else WebText(books[..|books| - 1]) + (books[|books| - 1].content + "\n")
  }

  /** The script: select the book files, sort them by number, then write each book's text.
      A book whose first token is not an integer stops it before the output file is
      opened. */
  method MergeWeb(folder: seq<Entry>) returns (r: Result<string, MergeError>)
    ensures r.Err? <==> !AllKeyed(SelectBooks(folder))
    ensures r.Err? ==> r.error == SortBooks(SelectBooks(folder)).error
    ensures r.Ok? ==> r.value == WebText(SortBooks(SelectBooks(folder)).value)
  {
    var sorted := SortBooks(SelectBooks(folder));
    if sorted.Err? {
      return Err(sorted.error);
    }
    var out := WriteWeb(sorted.value);
    return Ok(out);
  }

  /** The `with open(output_file, "w")` block: each book's text, then a newline. */
  method WriteWeb(books: seq<Entry>) returns (out: string)
    ensures out == WebText(books)
  {
    out := [];
    var i := 0;
    while i < |books|
      invariant 0 <= i <= |books|
      invariant out == WebText(books[..i])
    {
      out := out + (books[i].content + "\n");
      assert books[..i + 1][..i] == books[..i];
      i := i + 1;
    }
    assert books[..i] == books;
  }

  lemma WebTextSnoc(s: seq<Entry>, e: Entry)
    ensures WebText(s + [e]) == WebText(s) + (e.content + "\n")
  {
    assert (s + [e])[..|s|] == s;
  }

  /** Merging a list split in two writes the first part, then the second. */
  lemma {:induction false} WebTextAppend(a: seq<Entry>, b: seq<Entry>)
    ensures WebText(a + b) == WebText(a) + WebText(b)
  {
    if b == [] {
      assert a + b == a;
    } else {
      var c, e := b[..|b| - 1], b[|b| - 1];
      assert b == c + [e];
      assert a + b == (a + c) + [e];
      WebTextAppend(a, c);
      WebTextSnoc(a + c, e);
      WebTextSnoc(c, e);
      ConcatAssoc(WebText(a), WebText(c), e.content + "\n");
    }
  }

  /** The output starts with the first book's text, followed by a newline. */
  lemma WebTextFirst(books: seq<Entry>)
    requires books != []
    ensures WebText(books) == books[0].content + "\n" + WebText(books[1..])
    ensures StartsWith(WebText(books), books[0].content + "\n")
  {
    WebTextAppend([books[0]], books[1..]);
    assert [books[0]] + books[1..] == books;
    assert WebText([books[0]]) == books[0].content + "\n" by {
      assert [books[0]][..0] == [];
    }
  }

  /** The size of verses_web.txt: every book adds its text and one newline. */
  function WebSize(books: seq<Entry>): nat
  {
    if books == [] then 0 else WebSize(books[..|books| - 1]) + |books[|books| - 1].content| + 1
  }

  lemma {:induction false} WebTextLength(books: seq<Entry>)
    ensures |WebText(books)| == WebSize(books)
  {
    if books != [] {
      WebTextLength(books[..|books| - 1]);
    }
  }

  /** A folder without book files gives an empty verses_web.txt. */
  lemma NoBooksEmptyOutput(folder: seq<Entry>)
    requires forall e :: e in folder ==> !IsBookFile(e)
    ensures SortBooks(SelectBooks(folder)) == Ok([])
    ensures WebText(SortBooks(SelectBooks(folder)).value) == []
  {
    if SelectBooks(folder) != [] {
      SelectBooksMembers(folder, SelectBooks(folder)[0]);
    }
  }

  /** When no two books share a number, the output does not depend on the order the folder
      lists its files in. */
  lemma WebOrderIndependent(f1: seq<Entry>, f2: seq<Entry>)
    requires multiset(f1) == multiset(f2)
    requires DistinctKeys(SelectBooks(f1))
    ensures AllKeyed(SelectBooks(f1)) <==> AllKeyed(SelectBooks(f2))
    ensures AllKeyed(SelectBooks(f1)) ==>
      WebText(SortBooks(SelectBooks(f1)).value) == WebText(SortBooks(SelectBooks(f2)).value)
  {
    SortedBooksOrderIndependent(f1, f2);
  }
}
