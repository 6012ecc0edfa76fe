/**
 * What the two book-merge scripts share (amplified_pdf-main/txt/KJV/merge.py and
 * amplified_pdf-main/txt/WEB/merge_web.py): the files `glob("*.txt")` enumerates in the
 * script's folder, the choice of book files (basename starting with a digit), the sort key
 * (`int()` of the first whitespace-separated token of the basename) and the stable ascending
 * sort of `list.sort(key=...)`.
 */
module BookFiles {
  import opened Wrappers
  import opened Text
  import opened StableSort

  /** A file of the folder: its basename and the text reading it returns. */
  datatype Entry = Entry(name: string, content: string)

  /** Why a merge stops without output: `int()` raised `ValueError` on this sort token. */
  datatype MergeError = InvalidSortKey(token: string)

  /** `glob("*.txt")` matches a basename that ends in ".txt" and does not start with '.'. */
  predicate MatchesTxtGlob(name: string)
  {
    |name| >= 4 && name[|name| - 4..] == ".txt" && name[0] != '.'
  }

  /** A book file: matched by the glob, and the first character of its basename is a digit. */
  predicate IsBookFile(e: Entry): (b: bool)
    ensures b ==> |e.name| >= 5
  {
    MatchesTxtGlob(e.name) && IsDigit(e.name[0])
  }

  /** The list comprehension that builds `book_files`, in enumeration order. */
  function SelectBooks(folder: seq<Entry>): (books: seq<Entry>)
    ensures |books| <= |folder|
  {
    if folder == [] then []
    else if IsBookFile(folder[0]) then [folder[0]] + SelectBooks(folder[1..])
    else SelectBooks(folder[1..])
  }

  /** A file is merged exactly when it is in the folder and is a book file. */
  lemma {:induction false} SelectBooksMembers(folder: seq<Entry>, e: Entry)
    ensures e in SelectBooks(folder) <==> e in folder && IsBookFile(e)
  {
    if folder != [] {
      SelectBooksMembers(folder[1..], e);
      assert e in folder <==> e == folder[0] || e in folder[1..];
    }
  }

  /** Selection keeps each book file as often as the folder lists it and drops the rest. */
  lemma {:induction false} SelectBooksCount(folder: seq<Entry>, e: Entry)
    ensures multiset(SelectBooks(folder))[e] == if IsBookFile(e) then multiset(folder)[e] else 0
  {
    if folder != [] {
      SelectBooksCount(folder[1..], e);
      assert multiset(folder) == multiset{folder[0]} + multiset(folder[1..]) by {
        assert folder == [folder[0]] + folder[1..];
      }
    }
  }

  /** Listing the same files in another order selects the same books. */
  lemma SelectBooksPermutation(f1: seq<Entry>, f2: seq<Entry>)
    requires multiset(f1) == multiset(f2)
    ensures multiset(SelectBooks(f1)) == multiset(SelectBooks(f2))
  {
    forall e ensures multiset(SelectBooks(f1))[e] == multiset(SelectBooks(f2))[e] {
      SelectBooksCount(f1, e);
      SelectBooksCount(f2, e);
    }
  }

  /** The comprehension keeps the folder's order: a listing split in two selects the books
      of the first part, then those of the second. */
  lemma {:induction false} SelectBooksAppend(a: seq<Entry>, b: seq<Entry>)
    ensures SelectBooks(a + b) == SelectBooks(a) + SelectBooks(b)
  {
    if a != [] {
      assert (a + b)[1..] == a[1..] + b;
      SelectBooksAppend(a[1..], b);
      ConcatAssoc([a[0]], SelectBooks(a[1..]), SelectBooks(b));
    } else {
      assert a + b == b;
    }
  }

  /** `os.path.basename(f).split()[0]`: a book file's basename starts with a digit, so its
      first token is its leading run of non-whitespace characters. */
  function SortToken(e: Entry): (r: string)
    ensures StartsWith(e.name, r)
    ensures e.name != [] && IsDigit(e.name[0]) ==> r != [] && r[0] == e.name[0]
  {
    LeadingToken(e.name)
  }

  /** `int()` accepts the sort token. */
  predicate HasKey(e: Entry)
  {
    ParseInt(SortToken(e)).Some?
  }

  /** The sort key `int(os.path.basename(f).split()[0])`. */
  function KeyOf(e: Entry): (r: nat)
    requires HasKey(e)
    ensures r < Pow10(|SortToken(e)|)
  {
    DecimalBounds(SortToken(e));
    ParseInt(SortToken(e)).value
  }

  ghost predicate AllKeyed(s: seq<Entry>)
  {
    forall e :: e in s ==> HasKey(e)
  }


  /** The keys `sort(key=...)` computes before it moves anything: one per book, in list order.
      The first token `int()` rejects stops the script with that token. */
  function KeyBooks(books: seq<Entry>): (r: Result<seq<Keyed<Entry>>, MergeError>)
    ensures r.Ok? ==> |r.value| == |books|
  {
    if books == [] then Ok([])
    else if !HasKey(books[0]) then Err(InvalidSortKey(SortToken(books[0])))
    else
      var rest := KeyBooks(books[1..]);
      if rest.Err? then rest
      else Ok([Keyed(KeyOf(books[0]), books[0])] + rest.value)
  }

  /** Computing the keys succeeds exactly when every book has an integer token, and then
      pairs each book, in place, with its key. */
  lemma {:induction false} KeyBooksSucceeds(books: seq<Entry>)
    ensures KeyBooks(books).Ok? <==> AllKeyed(books)
    ensures KeyBooks(books).Ok? ==>
      (forall i :: 0 <= i < |books| ==> KeyBooks(books).value[i] == Keyed(KeyOf(books[i]), books[i]))
  {
    if books != [] {
      KeyBooksSucceeds(books[1..]);
      assert forall e :: e in books <==> e == books[0] || e in books[1..];
    }
  }

  /** When computing the keys fails, the error names the token of the first book without
      one. */
  lemma {:induction false} KeyBooksFails(books: seq<Entry>) returns (i: nat)
    requires KeyBooks(books).Err?
    ensures i < |books| && !HasKey(books[i]) && AllKeyed(books[..i])
    ensures KeyBooks(books).error == InvalidSortKey(SortToken(books[i]))
  {
    if HasKey(books[0]) {
      var j := KeyBooksFails(books[1..]);
      i := j + 1;
      assert books[..i] == [books[0]] + books[1..][..j];
    } else {
      i := 0;
    }
  }

  /** `book_files.sort(key=lambda f: int(os.path.basename(f).split()[0]))`. */
  function SortBooks(books: seq<Entry>): (r: Result<seq<Entry>, MergeError>)
    ensures r.Ok? <==> AllKeyed(books)
  {
    KeyBooksSucceeds(books);
    match KeyBooks(books)
    case Err(e) => Err(e)
    case Ok(ks) => Ok(Items(SortByKey(ks)))
  }

  /** The keyed books list the books in their original order. */
  lemma KeyedItems(books: seq<Entry>)
    requires KeyBooks(books).Ok?
    ensures Items(KeyBooks(books).value) == books
  {
    KeyBooksSucceeds(books);
  }

  /** The sorted list holds the same books, as often as before. */
  lemma SortBooksPermutes(books: seq<Entry>)
    requires AllKeyed(books)
    ensures multiset(SortBooks(books).value) == multiset(books)
  {
    KeyBooksSucceeds(books);
    var ks := KeyBooks(books).value;
    KeyedItems(books);
    SortByKeyItems(ks);
  }

  /** A key is the one `int()` gives for the book's token. */
  ghost predicate KeyedRight(x: Keyed<Entry>)
  {
    HasKey(x.item) && x.key == KeyOf(x.item)
  }

  /** Computing the keys pairs each book with its own key, as often as the book is listed. */
  lemma {:induction false} KeyBooksCount(books: seq<Entry>, x: Keyed<Entry>)
    requires KeyBooks(books).Ok?
    ensures multiset(KeyBooks(books).value)[x] == if KeyedRight(x) then multiset(books)[x.item] else 0
  {
    if books != [] {
      KeyBooksCount(books[1..], x);
      assert books == [books[0]] + books[1..];
    }
  }

  /** Every keyed book carries its own key. */
  lemma KeyBooksRight(books: seq<Entry>)
    requires KeyBooks(books).Ok?
    ensures forall x :: x in KeyBooks(books).value ==> KeyedRight(x) && x.item in books
  {
    forall x | x in KeyBooks(books).value ensures KeyedRight(x) && x.item in books {
      KeyBooksCount(books, x);
      assert x in multiset(KeyBooks(books).value);
    }
  }

  /** Keys never decrease along `s`. */
  predicate KeysAscending(s: seq<Entry>)
  {
    forall i, j :: 0 <= i < j < |s| ==> HasKey(s[i]) && HasKey(s[j]) && KeyOf(s[i]) <= KeyOf(s[j])
  }

  /** The sorted books come in ascending order of their integer keys. */
  lemma SortBooksAscending(books: seq<Entry>)
    requires AllKeyed(books)
    ensures KeysAscending(SortBooks(books).value)
  {
    KeyBooksSucceeds(books);
    var ks := KeyBooks(books).value;
    var sorted := SortByKey(ks);
    KeyBooksRight(books);
    SortByKeyAscending(ks);
    SortByKeyPermutes(ks);
    forall i | 0 <= i < |sorted| ensures KeyedRight(sorted[i]) {
      assert sorted[i] in multiset(ks);
    }
  }

  /** The books of `s` whose sort key is `k`, in order. */
  function BooksWithKey(s: seq<Entry>, k: nat): (r: seq<Entry>)
    ensures |r| <= |s|
  {
    if s == [] then []
    else if HasKey(s[0]) && KeyOf(s[0]) == k then [s[0]] + BooksWithKey(s[1..], k)
    else BooksWithKey(s[1..], k)
  }

  lemma {:induction false} ItemsWithKey(ks: seq<Keyed<Entry>>, k: nat)
    requires forall x :: x in ks ==> KeyedRight(x)
    ensures Items(WithKey(ks, k)) == BooksWithKey(Items(ks), k)
  {
    if ks != [] {
      assert KeyedRight(ks[0]);
      assert forall x :: x in ks[1..] ==> x in ks;
      ItemsWithKey(ks[1..], k);
      assert Items(ks)[1..] == Items(ks[1..]);
      ItemsAppend([ks[0]], WithKey(ks[1..], k));
    }
  }

  /** The sort is stable: books that share a key keep the order they were listed in. */
  lemma SortBooksStable(books: seq<Entry>, k: nat)
    requires AllKeyed(books)
    ensures BooksWithKey(SortBooks(books).value, k) == BooksWithKey(books, k)
  {
    KeyBooksSucceeds(books);
    var ks := KeyBooks(books).value;
    var sorted := SortByKey(ks);
    KeyBooksRight(books);
    KeyedItems(books);
    SortByKeyPermutes(ks);
    forall x | x in sorted ensures KeyedRight(x) {
      assert x in multiset(ks);
    }
    ItemsWithKey(sorted, k);
    ItemsWithKey(ks, k);
    SortByKeyStable(ks, k);
  }

  /** No two different books share a key. */
  ghost predicate DistinctKeys(books: seq<Entry>)
  {
    forall e1, e2 :: e1 in books && e2 in books && HasKey(e1) && HasKey(e2) && KeyOf(e1) == KeyOf(e2) ==> e1 == e2
  }

  /** Books listed as often, in any order, all have keys or all do not. */
  lemma SameBooksAllKeyed(b1: seq<Entry>, b2: seq<Entry>)
    requires multiset(b1) == multiset(b2)
    ensures AllKeyed(b1) <==> AllKeyed(b2)
  {
    assert forall e :: e in b1 <==> e in b2 by {
      forall e ensures e in b1 <==> e in b2 {
        assert e in b1 <==> e in multiset(b1);
        assert e in b2 <==> e in multiset(b2);
      }
    }
  }

  lemma SameBooksSameKeys(b1: seq<Entry>, b2: seq<Entry>)
    requires multiset(b1) == multiset(b2) && AllKeyed(b1) && AllKeyed(b2)
    ensures KeyBooks(b1).Ok? && KeyBooks(b2).Ok?
    ensures multiset(KeyBooks(b1).value) == multiset(KeyBooks(b2).value)
  {
    KeyBooksSucceeds(b1);
    KeyBooksSucceeds(b2);
    forall x ensures multiset(KeyBooks(b1).value)[x] == multiset(KeyBooks(b2).value)[x] {
      KeyBooksCount(b1, x);
      KeyBooksCount(b2, x);
    }
  }

  /** When no two books share a key, the order the folder lists its files in does not
      change the sorted books: `glob` order does not matter. */
  lemma SortedBooksOrderIndependent(f1: seq<Entry>, f2: seq<Entry>)
    requires multiset(f1) == multiset(f2)
    requires DistinctKeys(SelectBooks(f1))
    ensures SortBooks(SelectBooks(f1)).Ok? <==> SortBooks(SelectBooks(f2)).Ok?
    ensures SortBooks(SelectBooks(f1)).Ok? ==>
      SortBooks(SelectBooks(f1)).value == SortBooks(SelectBooks(f2)).value
  {
    var b1, b2 := SelectBooks(f1), SelectBooks(f2);
    SelectBooksPermutation(f1, f2);
    SameBooksAllKeyed(b1, b2);
    if AllKeyed(b1) {
      SameBooksSameKeys(b1, b2);
      SortedKeysAgree(b1, b2);
    }
  }

  lemma SortedKeysAgree(b1: seq<Entry>, b2: seq<Entry>)
    requires AllKeyed(b1) && AllKeyed(b2) && DistinctKeys(b1)
    requires KeyBooks(b1).Ok? && KeyBooks(b2).Ok?
    requires multiset(KeyBooks(b1).value) == multiset(KeyBooks(b2).value)
    ensures SortByKey(KeyBooks(b1).value) == SortByKey(KeyBooks(b2).value)
  {
    var ks1, ks2 := KeyBooks(b1).value, KeyBooks(b2).value;
    var s1, s2 := SortByKey(ks1), SortByKey(ks2);
    KeyBooksRight(b1);
    SortByKeyPermutes(ks1);
    SortByKeyPermutes(ks2);
    assert UniqueKeys(s1) by {
      forall x, y | x in s1 && y in s1 && x.key == y.key ensures x == y {
        assert x in multiset(ks1) && y in multiset(ks1);
      }
    }
    SortByKeyAscending(ks1);
    SortByKeyAscending(ks2);
    AscendingUnique(s1, s2);
  }

  /** A folder holding book files only is selected whole, in its order. */
  lemma {:induction false} SelectAll(folder: seq<Entry>)
    requires forall i :: 0 <= i < |folder| ==> IsBookFile(folder[i])
    ensures SelectBooks(folder) == folder
  {
    if folder != [] {
      SelectAll(folder[1..]);
      assert [folder[0]] + folder[1..] == folder;
    }
  }

  /** As seen from the folder, a failed merge names the token of the first book file, in the
      order `glob` listed them, that `int()` rejects. */
  lemma {:induction false} FolderFirstBadToken(folder: seq<Entry>) returns (i: nat)
    requires !AllKeyed(SelectBooks(folder))
    ensures i < |folder| && IsBookFile(folder[i]) && !HasKey(folder[i])
    ensures AllKeyed(SelectBooks(folder[..i]))
    ensures SortBooks(SelectBooks(folder)) == Err(InvalidSortKey(SortToken(folder[i])))
  {
    var f, rest := folder[0], folder[1..];
    if IsBookFile(f) && !HasKey(f) {
      i := 0;
      assert SelectBooks(folder) == [f] + SelectBooks(rest);
      assert KeyBooks(SelectBooks(folder)) == Err(InvalidSortKey(SortToken(f)));
    } else {
      assert !AllKeyed(SelectBooks(rest)) by {
        if IsBookFile(f) {
          assert SelectBooks(folder) == [f] + SelectBooks(rest);
        }
      }
      var j := FolderFirstBadToken(rest);
      i := j + 1;
      assert folder[..i] == [f] + rest[..j];
      assert SelectBooks(folder[..i]) == SelectBooks([f] + rest[..j]);
      assert KeyBooks(SelectBooks(folder)) == KeyBooks(SelectBooks(rest)) by {
        if IsBookFile(f) {
          assert SelectBooks(folder) == [f] + SelectBooks(rest);
          assert SelectBooks(folder)[1..] == SelectBooks(rest);
        }
      }
    }
  }

  /** Picking the books with one key commutes with selecting the book files. */
  lemma {:induction false} SelectWithKey(folder: seq<Entry>, k: nat)
    ensures BooksWithKey(SelectBooks(folder), k) == SelectBooks(BooksWithKey(folder, k))
  {
    if folder != [] {
      SelectWithKey(folder[1..], k);
    }
  }

  /** Stability as seen from the folder: the merged books numbered `k` are the folder's book
      files numbered `k`, in the order `glob` listed them. */
  lemma FolderOrderKept(folder: seq<Entry>, k: nat)
    requires AllKeyed(SelectBooks(folder))
    ensures BooksWithKey(SortBooks(SelectBooks(folder)).value, k) == SelectBooks(BooksWithKey(folder, k))
  {
    SortBooksStable(SelectBooks(folder), k);
    SelectWithKey(folder, k);
  }

  /** A basename without whitespace whose number is glued to the book name is selected as a
      book file, but its whole basename is the sort token, which `int()` rejects: the merge
      stops with that token. */
  lemma GluedNumberHasNoKey(e: Entry)
    requires MatchesTxtGlob(e.name) && IsDigit(e.name[0]) && !IsDigit(e.name[1])
    requires forall k :: 0 <= k < |e.name| ==> e.name[k] !in Whitespace
    ensures IsBookFile(e) && !HasKey(e)
    ensures SortBooks([e]) == Err(InvalidSortKey(e.name))
  {
    var t := SortToken(e);
    assert |t| == |e.name|;
    assert t == e.name;
    assert !IsDigit(t[1]);
    assert KeyBooks([e]) == Err(InvalidSortKey(t));
  }

  /** "1Genesis.txt" is such a name. */
  lemma GluedGenesis()
    ensures MatchesTxtGlob("1Genesis.txt") && IsDigit("1Genesis.txt"[0]) && !IsDigit("1Genesis.txt"[1])
    ensures forall k :: 0 <= k < |"1Genesis.txt"| ==> "1Genesis.txt"[k] !in Whitespace
  {
    var s := "1Genesis.txt";
    assert s[|s| - 4..] == ".txt";
  }

  /** The key of a book whose basename starts with `d ` or `dd `, for digits `d`. */
  lemma ShortKey(e: Entry, n: nat)
    requires 2 <= |e.name| && IsDigit(e.name[0])
    requires e.name[1] == ' ' ==> n == e.name[0] as int - '0' as int
    requires e.name[1] != ' ' ==> (3 <= |e.name| && IsDigit(e.name[1]) && e.name[2] == ' ' &&
      n == 10 * (e.name[0] as int - '0' as int) + (e.name[1] as int - '0' as int))
    ensures HasKey(e) && KeyOf(e) == n
  {
    var t := SortToken(e);
    if e.name[1] == ' ' {
      assert LeadingToken(e.name[1..]) == [];
      assert t == [e.name[0]];
      assert t[..0] == [];
      assert AllDigits(t);
      assert DecimalValue(t) == 10 * DecimalValue(t[..0]) + (e.name[0] as int - '0' as int);
    } else {
      assert LeadingToken(e.name[2..]) == [];
      assert e.name[1..][1..] == e.name[2..];
      assert t == [e.name[0], e.name[1]];
      assert t[..1] == [e.name[0]];
      assert t[..1][..0] == [];
      assert AllDigits(t);
      assert DecimalValue(t[..1]) == e.name[0] as int - '0' as int;
      assert DecimalValue(t) == 10 * DecimalValue(t[..1]) + (e.name[1] as int - '0' as int);
    }
  }

  lemma KeyThree(x: Entry, y: Entry, z: Entry)
    requires HasKey(x) && HasKey(y) && HasKey(z)
    ensures KeyBooks([x, y, z]) == Ok([Keyed(KeyOf(x), x), Keyed(KeyOf(y), y), Keyed(KeyOf(z), z)])
  {
    var books := [x, y, z];
    assert AllKeyed(books) by {
      forall e | e in books ensures HasKey(e) {
        assert e == x || e == y || e == z;
      }
    }
    KeyBooksSucceeds(books);
    var ks := KeyBooks(books).value;
    assert ks[0] == Keyed(KeyOf(x), x) && ks[1] == Keyed(KeyOf(y), y) && ks[2] == Keyed(KeyOf(z), z);
    assert ks == [Keyed(KeyOf(x), x), Keyed(KeyOf(y), y), Keyed(KeyOf(z), z)];
    assert KeyBooks(books) == Ok(ks);
  }

  /** Books named "2 Exodus - x.txt", "1 Genesis - x.txt" and "10 Numbers - x.txt" are book
      files with keys 2, 1 and 10. */
  lemma NamedBook(e: Entry, n: nat)
    requires e.name == "2 Exodus - x.txt" ==> n == 2
    requires e.name == "1 Genesis - x.txt" ==> n == 1
    requires e.name == "10 Numbers - x.txt" ==> n == 10
    requires e.name in {"2 Exodus - x.txt", "1 Genesis - x.txt", "10 Numbers - x.txt"}
    ensures IsBookFile(e) && HasKey(e) && KeyOf(e) == n
  {
    if e.name == "2 Exodus - x.txt" {
      ExodusBook(e);
    } else if e.name == "1 Genesis - x.txt" {
      GenesisBook(e);
    } else {
      NumbersBook(e);
    }
  }

  lemma ExodusBook(e: Entry)
    requires e.name == "2 Exodus - x.txt"
    ensures IsBookFile(e) && HasKey(e) && KeyOf(e) == 2
  {
    assert e.name[|e.name| - 4..] == ".txt";
    ShortKey(e, 2);
  }

  lemma GenesisBook(e: Entry)
    requires e.name == "1 Genesis - x.txt"
    ensures IsBookFile(e) && HasKey(e) && KeyOf(e) == 1
  {
    assert e.name[|e.name| - 4..] == ".txt";
    ShortKey(e, 1);
  }

  lemma NumbersBook(e: Entry)
    requires e.name == "10 Numbers - x.txt"
    ensures IsBookFile(e) && HasKey(e) && KeyOf(e) == 10
  {
    assert e.name[|e.name| - 4..] == ".txt";
    ShortKey(e, 10);
  }

  /** Three book files whose keys come in the order middle, first, last are merged as
      middle, first, last. */
  lemma SortThreeBooks(x: Entry, y: Entry, z: Entry)
    requires IsBookFile(x) && IsBookFile(y) && IsBookFile(z)
    requires HasKey(x) && HasKey(y) && HasKey(z)
    requires KeyOf(y) < KeyOf(x) < KeyOf(z)
    ensures SortBooks(SelectBooks([x, y, z])) == Ok([y, x, z])
  {
    SelectAll([x, y, z]);
    KeyThree(x, y, z);
    SortThree(Keyed(KeyOf(x), x), Keyed(KeyOf(y), y), Keyed(KeyOf(z), z));
    assert Items([Keyed(KeyOf(y), y), Keyed(KeyOf(x), x), Keyed(KeyOf(z), z)]) == [y, x, z];
  }

  /** Books numbered 2, 1 and 10, listed in that order, are merged as 1, 2, 10: the order is
      numeric, not the text order in which "10" comes before "2". */
  lemma NumericOrder(c1: string, c2: string, c10: string)
    ensures var exodus, genesis, numbers :=
      Entry("2 Exodus - x.txt", c2), Entry("1 Genesis - x.txt", c1), Entry("10 Numbers - x.txt", c10);
      SortBooks(SelectBooks([exodus, genesis, numbers])) == Ok([genesis, exodus, numbers])
  {
    var exodus, genesis, numbers :=
      Entry("2 Exodus - x.txt", c2), Entry("1 Genesis - x.txt", c1), Entry("10 Numbers - x.txt", c10);
    NamedBook(exodus, 2);
    NamedBook(genesis, 1);
    NamedBook(numbers, 10);
    SortThreeBooks(exodus, genesis, numbers);
  }
}
