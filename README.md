# Bible reader: verse helpers and book-merge scripts, in Dafny

This project models the core of a small Bible-reading web application and of the two
scripts that build its verse files.

- **The application's verse helpers** (`app.py`):
  - loading a translation's verse file as its stripped, non-blank lines, or as no lines
    when the file is missing;
  - turning one line into an HTML fragment: a book divider becomes a title-cased `<h2>`,
    a line naming a translation becomes an `<h3>`, and anything else becomes a `<p>`;
  - the case-insensitive keyword filter behind the `/search` and `/search_book` routes,
    and the `/verses` page;
  - the daily verse: any one loaded line, or the text "No verses found.".
- **The King James merge script** (`amplified_pdf-main/txt/KJV/merge.py`) and **the World
  English Bible merge script** (`amplified_pdf-main/txt/WEB/merge_web.py`):
  - pick the `*.txt` files of their folder whose name starts with a digit;
  - sort them by `int()` of the first whitespace-separated token of the name;
  - concatenate them. The KJV script writes a `=== <book name> ===` divider before each
    book; the WEB script writes none.

Modules, one per file:

| file | module | what it holds |
|---|---|---|
| `wrappers.dfy` | `Wrappers` | `Option` and `Result` |
| `text.dfy` | `Text` | the parts of Python's `str` the code uses, over ASCII: `strip`, `lower`, `title`, `in`, `startswith`, `split()[0]`, `split(sep)[0]`, `int()` |
| `verses.dfy` | `Verses` | the helpers and routes of `app.py` |
| `stable_sort.dfy` | `StableSort` | the stable, ascending sort by key that `list.sort(key=...)` performs, as a reference definition |
| `book_files.dfy` | `BookFiles` | what both scripts share: file selection, sort keys, the sorted book list |
| `kjv_merge.dfy` | `KjvMerge` | `merge.py` |
| `web_merge.dfy` | `WebMerge` | `merge_web.py` |

How the outside world is represented:
- The file system the application reads is a map from file name to the file's lines.
- The folder a merge script reads is a sequence of (basename, content) entries, in the order
  `glob` lists them.
- A merge produces the text of its output file, or the error that stops it.

**The divider keeps the numeric prefix.** The KJV divider's book name is the basename up to
the first " - ", so it keeps the book number: `split(" - ")[0]` of "1 Genesis - KJV.txt" is
"1 Genesis", not "Genesis" (`KjvMerge.BookNameKeepsNumber`).

The KJV script writes `kjv_full.txt`, and the application never opens that name.
`KjvMerge.OutputNotLoaded` states this. The WEB script writes a file with the name the application opens for "WEB",
`verses_web.txt` (`WebMerge.OutputIsLoaded`). The script writes it into its own folder,
while the application opens that name in its working directory.

## Model

| member | source | states |
|---|---|---|
| Text.Lower | app.py:111 | `lower()` maps every character to its lower case and keeps the length |
| Text.Contains | app.py:114 | the `in` test holds exactly when the needle occurs at some index of the text |
| Text.TrimLeft | app.py:63 | removes only characters of the set from the front, and stops at one outside it |
| Text.TrimRight | app.py:63 | removes only characters of the set from the back, and stops at one outside it |
| Text.Strip | app.py:63 | the result has no stripped character at either end, and the input is the result padded on both sides with stripped characters only |
| Text.StripClean | app.py:63 | a string with no stripped character at either end is left unchanged |
| Text.DecimalBounds | amplified_pdf-main/txt/KJV/merge.py:10 | an n-digit numeral's value is below 10^n, and at least 10^(n-1) without a leading zero |
| Text.StripUnique | app.py:65 | stripping returns exactly the non-empty core between padding characters |
| Text.StripIdempotent | app.py:58 | stripping twice is stripping once |
| Text.StripPadded | app.py:65 | characters of the stripped set added around a string are removed along with its own padding |
| Text.StripEmpty | app.py:58 | a line strips to the empty string, and so is skipped, exactly when it is all whitespace |
| Text.Title | app.py:65 | `title()` upper-cases a letter that follows a non-letter and lower-cases a letter that follows a letter |
| Text.TitleIdempotent | app.py:65 | title-casing a title-cased string changes nothing |
| Text.TitleKeepsLetters | app.py:65 | `title()` changes only case, and keeps a non-letter at either end |
| Text.LeadingToken | amplified_pdf-main/txt/KJV/merge.py:10 | `split()[0]` of a name that starts with a non-space is its longest whitespace-free prefix |
| Text.BeforeFirst | amplified_pdf-main/txt/KJV/merge.py:14 | `split(" - ")[0]` is a prefix holding no separator, and it ends where the first separator starts or where the name ends |
| Text.ParseInt | amplified_pdf-main/txt/KJV/merge.py:10 | `int()` accepts a token exactly when it is a non-empty string of digits |
| Text.ShorterNumeralIsSmaller | amplified_pdf-main/txt/KJV/merge.py:10 | the key is compared by value, not text: a numeral is smaller than any longer numeral without a leading zero ("2" before "10") |
| Verses.VersesFileName | app.py:55 | the file opened is "verses_", the translation name in lower case, then ".txt" |
| Verses.VersesFileNameIgnoresCase | app.py:55 | two translation names open the same file exactly when they agree up to case ("KJV", "kjv", "Kjv") |
| Verses.CleanLines | app.py:58 | keeps at most as many lines, and each kept line is non-empty with no whitespace at either end |
| Verses.LoadVerses | app.py:54-60 | the cleaned lines of `verses_<lowercased translation>.txt`, or no lines when that file does not exist |
| Verses.CleanLinesAppend | app.py:58 | cleaning keeps file order: two parts of a file are cleaned in place |
| Verses.CleanLinesMembers | app.py:58 | a line is loaded exactly when it is the non-empty stripped form of some line of the file |
| Verses.CleanLinesIdempotent | app.py:58 | cleaning loaded lines again changes nothing |
| Verses.FormatLine | app.py:62-70 | `format_line`: the fragment opens with the tag of the branch the line takes: divider first, then translation title, then verse |
| Verses.WrapOpensWith | app.py:66-70 | the opening of a fragment tells which of the three elements it is |
| Verses.FormatLineKinds | app.py:62-70 | every line gives exactly one of `<h2`, `<h3`, `<p>`; the divider test comes first and the translation-title test second |
| Verses.DividerFragment | app.py:63-66 | a divider line becomes `<h2 style='color:darkblue'>`, a heading and `</h2>`. The line without surrounding whitespace starts with "===". The heading is title-cased and equals, up to case, the text left when `=` and spaces are removed from both ends of that line |
| Verses.DividerHeadingText | app.py:65 | the heading equals the line without its `=` and space edges up to case, is title-cased, has no `=` or space at either end, and is at least three characters shorter than the stripped line |
| Verses.DividerMarkStripped | app.py:64-65 | stripping `=` and spaces from a line starting with "===" removes at least those three |
| Verses.OtherLineFragment | app.py:63-70 | any other line becomes `<h3 style='color:green'>` and `</h3>` around its text when it names a translation, and `<p>` and `</p>` otherwise. Its text is the line without surrounding whitespace, kept exactly |
| Verses.FormatLineIgnoresPadding | app.py:63 | surrounding whitespace does not change a line's fragment |
| Verses.FormatAll | app.py:136 | the `/verses` page formats every loaded line, in order |
| Verses.MatchingLines | app.py:113-115 | the filter keeps at most as many lines as it is given |
| Verses.MatchingLinesMembers | app.py:113-115 | a line is a result exactly when it was loaded and its lowercased text contains the needle |
| Verses.MatchingLinesAppend | app.py:113-115 | results keep the order of the loaded lines |
| Verses.EmptyNeedleMatchesAll | app.py:111-115 | an empty keyword matches every line |
| Verses.ExactMatchIsFound | app.py:111-114 | the search ignores case: a line containing the keyword as typed is always found |
| Verses.CollectMatches | app.py:113-115 | the loop appends exactly the fragments of the matching lines, in order |
| Verses.Search | app.py:105-120 | a GET gives no results; a POST gives the fragments of the lines containing the lowercased `keyword` field, with a missing field counting as empty |
| Verses.SearchBook | app.py:122-131 | the same for the `bookname` field, with no more results than loaded lines |
| Verses.EmptyKeywordShowsAll | app.py:111-136 | a search with an empty keyword shows the same fragments as the `/verses` page |
| Verses.DailyVerse | app.py:102 | the daily verse is one of the loaded lines, or "No verses found." when there are none |
| StableSort.Insert | amplified_pdf-main/txt/KJV/merge.py:10 | inserting into a list adds exactly one entry, the inserted one |
| StableSort.SortByKey | amplified_pdf-main/txt/KJV/merge.py:10 | the sort keeps the number of entries; the lemmas below prove it a stable, ascending permutation |
| StableSort.Items | amplified_pdf-main/txt/KJV/merge.py:10 | the items of keyed entries, one for one, in order |
| StableSort.InsertPermutes | amplified_pdf-main/txt/KJV/merge.py:10 | inserting adds the one entry and loses none |
| StableSort.SortByKeyPermutes | amplified_pdf-main/txt/KJV/merge.py:10 | the sort keeps every entry, as often as it occurs |
| StableSort.InsertItems | amplified_pdf-main/txt/KJV/merge.py:10 | inserting adds the one item and loses none |
| StableSort.SortByKeyItems | amplified_pdf-main/txt/KJV/merge.py:10 | the sort keeps every item, as often as it occurs |
| StableSort.InsertAscending | amplified_pdf-main/txt/KJV/merge.py:10 | inserting into an ascending list keeps it ascending |
| StableSort.SortByKeyAscending | amplified_pdf-main/txt/KJV/merge.py:10 | the sort leaves keys in ascending order |
| StableSort.SortThree | amplified_pdf-main/txt/KJV/merge.py:10 | three entries listed with the middle, smallest and largest keys come out smallest, middle, largest |
| StableSort.WithKey | amplified_pdf-main/txt/KJV/merge.py:10 | the entries with one key, in list order, are never more than the whole list |
| StableSort.WithKeyAppend | amplified_pdf-main/txt/KJV/merge.py:10 | picking one key's entries from a joined list picks from each part in place |
| StableSort.WithKeyAbsent | amplified_pdf-main/txt/KJV/merge.py:10 | a list without a key has no entries with that key |
| StableSort.InsertStable | amplified_pdf-main/txt/KJV/merge.py:10 | an inserted entry goes after every entry with the same key |
| StableSort.SortByKeyStable | amplified_pdf-main/txt/KJV/merge.py:10 | the sort is stable: entries that share a key keep their relative order |
| StableSort.AscendingUnique | amplified_pdf-main/txt/KJV/merge.py:10 | with unique keys, a collection has only one ascending arrangement |
| BookFiles.IsBookFile | amplified_pdf-main/txt/KJV/merge.py:7-8 | a book file matches `*.txt` and starts with a digit, so it has at least one character before ".txt" |
| BookFiles.SelectBooks | amplified_pdf-main/txt/KJV/merge.py:7-8 | the selection never holds more files than the folder |
| BookFiles.SelectBooksMembers | amplified_pdf-main/txt/KJV/merge.py:7-8 | a file is merged exactly when it is in the folder, ends in ".txt", is not hidden and starts with a digit |
| BookFiles.SelectBooksCount | amplified_pdf-main/txt/WEB/merge_web.py:9-10 | selection keeps each book file as often as listed and drops every other file |
| BookFiles.SelectBooksPermutation | amplified_pdf-main/txt/WEB/merge_web.py:9-10 | listing the folder in another order selects the same books |
| BookFiles.SelectBooksAppend | amplified_pdf-main/txt/KJV/merge.py:7-8 | the comprehension keeps the folder's order: a listing split in two selects the books of the first part, then those of the second |
| BookFiles.SelectWithKey | amplified_pdf-main/txt/KJV/merge.py:7-10 | picking the books with one number commutes with selecting the book files |
| BookFiles.FolderFirstBadToken | amplified_pdf-main/txt/KJV/merge.py:7-10 | a failed merge names the token of the first book file, in `glob` order, that `int()` rejects; every book file listed before it has an integer token |
| BookFiles.SelectAll | amplified_pdf-main/txt/KJV/merge.py:7-8 | a folder holding only book files is selected whole, in order |
| BookFiles.SortToken | amplified_pdf-main/txt/KJV/merge.py:10 | the sort token is a prefix of the basename, and a book file's token starts with its leading digit |
| BookFiles.KeyOf | amplified_pdf-main/txt/KJV/merge.py:10 | the key `int()` gives is below 10 to the power of the token's length |
| BookFiles.KeyBooks | amplified_pdf-main/txt/KJV/merge.py:10 | computing the keys gives one key per book |
| BookFiles.KeyBooksSucceeds | amplified_pdf-main/txt/KJV/merge.py:10 | computing the keys succeeds exactly when every token is an integer, and then pairs each book, in place, with `int()` of its token |
| BookFiles.KeyBooksFails | amplified_pdf-main/txt/KJV/merge.py:10 | otherwise the error names the token of the first book, in list order, that `int()` rejects |
| BookFiles.SortBooks | amplified_pdf-main/txt/WEB/merge_web.py:13 | the sort succeeds exactly when every book has an integer token |
| BookFiles.KeyedItems | amplified_pdf-main/txt/KJV/merge.py:10 | the keyed books list the books in their original order |
| BookFiles.KeyBooksCount | amplified_pdf-main/txt/KJV/merge.py:10 | each book is paired with its own key, as often as it is listed |
| BookFiles.KeyBooksRight | amplified_pdf-main/txt/KJV/merge.py:10 | every keyed book carries its own key and is one of the books |
| BookFiles.SortBooksPermutes | amplified_pdf-main/txt/KJV/merge.py:10 | the sorted list holds the same books, as often as before |
| BookFiles.SortBooksAscending | amplified_pdf-main/txt/KJV/merge.py:10 | the sorted books come in ascending order of `int()` of their tokens |
| BookFiles.ItemsWithKey | amplified_pdf-main/txt/KJV/merge.py:10 | picking one key's books from keyed books picks the books with that key |
| BookFiles.SortBooksStable | amplified_pdf-main/txt/WEB/merge_web.py:13 | the sort is stable: books that share a number keep their order in `book_files`, the list the sort receives |
| BookFiles.FolderOrderKept | amplified_pdf-main/txt/KJV/merge.py:7-10 | seen from the folder, the merged books numbered k are the folder's book files numbered k, in the order `glob` listed them |
| BookFiles.SameBooksAllKeyed | amplified_pdf-main/txt/KJV/merge.py:10 | reordering the books does not change whether every one has a key |
| BookFiles.SameBooksSameKeys | amplified_pdf-main/txt/KJV/merge.py:10 | reordering the books reorders their keyed pairs alike |
| BookFiles.SortedKeysAgree | amplified_pdf-main/txt/KJV/merge.py:10 | with distinct numbers, two orderings of the same books sort to the same list |
| BookFiles.SortedBooksOrderIndependent | amplified_pdf-main/txt/KJV/merge.py:7-10 | with distinct numbers, the sorted books do not depend on the order the folder lists its files in |
| BookFiles.GluedNumberHasNoKey | amplified_pdf-main/txt/KJV/merge.py:8-10 | a basename without whitespace whose leading digit is followed by a non-digit is selected as a book file, yet `int()` rejects its token, and the sort stops with the whole basename as the error |
| BookFiles.GluedGenesis | amplified_pdf-main/txt/KJV/merge.py:8 | "1Genesis.txt" is such a basename |
| BookFiles.ShortKey | amplified_pdf-main/txt/KJV/merge.py:10 | a name starting with one or two digits and a space has those digits' value as its key |
| BookFiles.KeyThree | amplified_pdf-main/txt/KJV/merge.py:10 | three books with integer tokens are keyed in place |
| BookFiles.NamedBook | amplified_pdf-main/txt/KJV/merge.py:8-10 | "2 Exodus - x.txt", "1 Genesis - x.txt" and "10 Numbers - x.txt" are book files with keys 2, 1 and 10 |
| BookFiles.SortThreeBooks | amplified_pdf-main/txt/KJV/merge.py:7-10 | three book files listed with the middle, smallest and largest numbers are merged smallest, middle, largest |
| BookFiles.NumericOrder | amplified_pdf-main/txt/KJV/merge.py:7-10 | files numbered 2, 1 and 10 are merged as 1, 2, 10 |
| KjvMerge.BookName | amplified_pdf-main/txt/KJV/merge.py:14 | the book name is a prefix of the basename, and no " - " starts inside it |
| KjvMerge.Divider | amplified_pdf-main/txt/KJV/merge.py:15 | the divider is the book name plus 11 characters, with the name starting at index 5 |
| KjvMerge.BookNameKeepsNumber | amplified_pdf-main/txt/KJV/merge.py:14 | the divider's book name is the basename before the first " - ", and it keeps the sort token ("1 Genesis") |
| KjvMerge.DividerOnOwnLine | amplified_pdf-main/txt/KJV/merge.py:15 | the divider write puts `=== <book name> ===` on a line of its own, after an empty line and before one |
| KjvMerge.DividerLineBecomesHeading | amplified_pdf-main/txt/KJV/merge.py:14-15 | read back by `format_line`, every divider line is a book divider. It becomes the `<h2>` of the book name with `=` and spaces stripped from its ends, title-cased. A name such as "1 Genesis " (from "1 Genesis  - KJV.txt") loses its trailing space; a name without `=` or a space at either end is title-cased whole |
| KjvMerge.DividerLineStrip | amplified_pdf-main/txt/KJV/merge.py:15 | stripping `=` and spaces from a divider line gives the book name with `=` and spaces stripped from its ends |
| KjvMerge.OutputNotLoaded | amplified_pdf-main/txt/KJV/merge.py:5 | `kjv_full.txt` is not a name `load_verses` opens |
| KjvMerge.OutputNotMerged | amplified_pdf-main/txt/KJV/merge.py:5-8 | the script's own output, left from an earlier run, is never merged |
| KjvMerge.Chunk | amplified_pdf-main/txt/KJV/merge.py:15-17 | one book's output is its book name, its text and 12 more characters, and it ends in a newline |
| KjvMerge.KjvText | amplified_pdf-main/txt/KJV/merge.py:12-17 | the output is empty exactly when no book is merged |
| KjvMerge.MergeKjv | amplified_pdf-main/txt/KJV/merge.py:7-17 | the run fails exactly when some book's token is not an integer, with that error; otherwise it writes the chunks of the sorted books |
| KjvMerge.WriteKjv | amplified_pdf-main/txt/KJV/merge.py:12-17 | the write loop produces, for each book in order, its divider, then its text and a newline |
| KjvMerge.KjvTextAppend | amplified_pdf-main/txt/KJV/merge.py:13-17 | the output of a list split in two is the first part's output followed by the second's |
| KjvMerge.KjvTextFirst | amplified_pdf-main/txt/KJV/merge.py:13-17 | the output starts with the first book's divider and chunk |
| KjvMerge.KjvTextLength | amplified_pdf-main/txt/KJV/merge.py:15-17 | the output's length is the sum, over the books, of the name, the text and 12 characters |
| KjvMerge.NoBooksEmptyOutput | amplified_pdf-main/txt/KJV/merge.py:7-17 | a folder without book files gives an empty output |
| KjvMerge.KjvOrderIndependent | amplified_pdf-main/txt/KJV/merge.py:7-17 | with distinct numbers, the output does not depend on the folder's listing order |
| WebMerge.OutputIsLoaded | amplified_pdf-main/txt/WEB/merge_web.py:6 | the output file's name, `verses_web.txt`, is the name `load_verses` opens for "WEB" and "web" |
| WebMerge.OutputNotMerged | amplified_pdf-main/txt/WEB/merge_web.py:6-10 | the script's own output, left from an earlier run, is never merged |
| WebMerge.WebText | amplified_pdf-main/txt/WEB/merge_web.py:15-19 | the output is empty exactly when no book is merged, and otherwise ends in a newline |
| WebMerge.MergeWeb | amplified_pdf-main/txt/WEB/merge_web.py:9-19 | the run fails exactly when some book's token is not an integer, with that error; otherwise it writes the sorted books' texts |
| WebMerge.WriteWeb | amplified_pdf-main/txt/WEB/merge_web.py:15-19 | the write loop produces each book's text and a newline, in order, with no divider |
| WebMerge.WebTextAppend | amplified_pdf-main/txt/WEB/merge_web.py:16-19 | the output of a list split in two is the first part's output followed by the second's |
| WebMerge.WebTextFirst | amplified_pdf-main/txt/WEB/merge_web.py:16-19 | the output starts with the first book's text and a newline |
| WebMerge.WebTextLength | amplified_pdf-main/txt/WEB/merge_web.py:19 | the output's length is the sum, over the books, of the text and one newline |
| WebMerge.NoBooksEmptyOutput | amplified_pdf-main/txt/WEB/merge_web.py:9-19 | a folder without book files gives an empty output |
| WebMerge.WebOrderIndependent | amplified_pdf-main/txt/WEB/merge_web.py:9-19 | with distinct numbers, the output does not depend on the folder's listing order |

## Left out

- The Flask routes' HTTP and template rendering, the legal pages, and the contact form
  (app.py:76-97, 139-159) are not modelled. The routes are modelled only through the
  values they compute for their templates.
- The SQLite credit helpers (`add_user`, `add_credits`, `get_credits`) and the credit update
  in `search` (app.py:116-119) are not modelled. They are database I/O and do not affect
  the search results.
- `init_db.py`, `check_db.py`, `config.py` and `static/service-worker.js` are not part of
  this model.
- WebMerge.OutputIsLoaded: only the file names are compared. The script writes
  `verses_web.txt` into its own folder (merge_web.py:5-6), and `load_verses` opens that name
  relative to the working directory (app.py:55-57). The merged file is loaded only once it is
  copied to, or the application is started in, that folder; the model does not capture
  directories.
- File I/O is not modelled:
  - A verse file is given as its lines, already split. Text-mode newline translation and
    UTF-8 decoding errors are not modelled.
  - A merge folder is given as its listing. `glob`'s enumeration order is an input, not
    modelled.
  - A failed read part-way through a merge, which leaves a partial output file, is not
    modelled.
  - The final `print` of `merge_web.py` is left out.
- Verses.DailyVerse: `random.choice` is a nondeterministic choice among the loaded lines.
  Which line is chosen, and with what probability, is not modelled.
- Text.Strip, Text.Lower, Text.Title: whitespace, case and letters are modelled over ASCII.
  Python also strips Unicode spaces and changes the case of non-ASCII letters.
- Text.ParseInt: `int()` is modelled on ASCII digit strings only. Python also accepts
  underscores between digits ("1_0") and non-ASCII decimal digits. Both fall outside the
  model.
- BookFiles.IsBookFile: `isdigit()` is modelled on ASCII digits. Python's `isdigit` also
  holds for other Unicode digits, which `int()` may then reject.
- Text.LeadingToken: `split()[0]` is modelled for names that do not start with whitespace.
  Every selected book file starts with a digit.
- BookFiles.MatchesTxtGlob: `glob("*.txt")` is modelled with POSIX matching, which is
  case-sensitive and skips hidden files. On Windows the match ignores case, so "1 Genesis.TXT"
  would also be merged; the model does not capture that.
