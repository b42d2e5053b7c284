# BiblioSmart loans model

A Dafny model of the logic of BiblioSmart, the reading-library application of
a hospital. The library lends books to readers (patients); the librarian
keeps three collections (books, readers, loans) through five screens:

- the books screen: search, add, delete, and an automatic fill of genre and
  description;
- the readers screen: search, add, delete;
- the loans screen: the "new loan" form, the "mark as returned" action, and
  the loan table with a status badge per loan;
- the reports screen: available books, the collection grouped by genre, and
  the active loans due on a chosen day;
- the dashboard: four counters, the five latest loans and the five newest
  readers.

The collections live in a `Store.Library` object whose methods replace the
`books`, `readers` and `loans` sequences the way the screens' handlers call
`setBooks`, `setReaders` and `setLoans`. Each form keeps its draft in a small
class (`BookForm`, `ReaderForm`, `LoanForm`) whose `Submit` calls the library.

The central invariant is `Store.Consistent`:

- identifiers are unique in each collection;
- a stored book is `Loaned` exactly when some active loan references it;
- no two active loans reference the same book;
- no stored loan is `Overdue`, and exactly the returned loans carry a return
  date.

The handlers do not check any of this. They keep it because of what the
screens let the librarian do, and those conditions are the methods'
preconditions:

- the loan form lists only available books;
- the return button appears only on active loans;
- new identifiers are fresh UUIDs.

Every library method proves that it keeps `Consistent`.

The views are functions over the collections:

- the search filters, as ASCII case-folding plus substring search;
- the available-books report;
- the genre grouping, written as the loop of the source's `reduce`;
- the returns-by-date report, which reads each due instant as a local
  calendar date and formats it `YYYY-MM-DD`;
- the status badges;
- the dashboard counters and "last five, newest first" lists;
- the "Livro Removido" / "Leitor Removido" fallbacks.

Times are instants: milliseconds since 1970-01-01 00:00 local time
(`Types.Instant`). Module `Calendar` converts between instants and
Gregorian dates and proves the round trip. It also proves that a due date
stored at noon of day `d` reads back as `d`, and that the `YYYY-MM-DD`
format is injective.

Differences between the screens, stated as lemmas rather than smoothed over:

- The loan table calls a loan late when it is due before the start of
  today. The dashboard badge, the dashboard counter and the return rows
  of the reports use a strict comparison with the current instant.
  `Dashboard.LabelsDisagreeAfterNoon` shows the two disagreeing one
  millisecond after a loan's due noon.
- Deleting a book or a reader never checks loans. Loans that reference a
  deleted book stay active. The dashboard and the loan table show them with
  the "Livro Removido" / "Leitor Removido" fallback. The returns table of
  the reports has no fallback: it prints the missing title and name as
  empty text (components/ReportsManager.tsx:173,176).

Where the code and its written description differ, the model follows the
code:

- Creating a loan does not itself validate the book or the reader. Only the
  form's choice list does, so availability is a precondition rather than a
  rejected case.
- Deletion is unconditional.

## Model

| member | source | states |
|---|---|---|
| Store.Library.constructor | App.tsx:25-36 | With nothing stored, the three collections start empty, and the empty state is consistent. |
| Store.Library.CreateLoan | components/LoansManager.tsx:30-40 | Appends one active loan for the chosen book and reader, lent now, due at noon of the chosen day and not returned. Sets only that book's status to loaned. Keeps the other books, their count, all earlier loans, the readers and the invariant. |
| Store.Library.ReturnLoan | components/LoansManager.tsx:49-52 | Turns exactly that loan into a returned loan dated now and makes its book available. Every other loan, every other book and the readers are unchanged, and the invariant holds afterwards. |
| Store.Library.AddBook | components/BooksManager.tsx:31-38 | Appends one available book carrying the draft's fields under a fresh id. The earlier books, readers and loans are unchanged and the invariant is kept. |
| Store.Library.DeleteBook | components/BooksManager.tsx:58-62 | Removes the book with that id and keeps the others in order. Nothing changes when no book has the id. Loans are untouched whatever they reference, and the invariant still holds. |
| Store.Library.AddReader | components/ReadersManager.tsx:23-30 | Appends one reader built from the draft, registered now under a fresh id. Nothing else changes and the invariant is kept. |
| Store.Library.DeleteReader | components/ReadersManager.tsx:35-39 | Removes the reader with that id and keeps the others in order. Nothing changes when it is absent, and loans are untouched. |
| Store.NewBook | components/BooksManager.tsx:33-37 | The new book is available, has the given id and carries the draft's title, author, isbn, genre and description unchanged. |
| Store.NewReader | components/ReadersManager.tsx:25-29 | The new reader has the id, the name and joinedAt = now. Every location field of the form is present. Email and phone are absent. |
| Store.NewLoan | components/LoansManager.tsx:26-37 | The new loan is active, lent now, has no return date and has the chosen ids. Its due instant reads back as the chosen local date and sits at 12:00, not at now and not at midnight. |
| Store.SetBookStatus | components/LoansManager.tsx:40 | Same length. Each book with that id gets the new status and every other book is unchanged. |
| Store.MarkReturned | components/LoansManager.tsx:50 | Same length. The loan with that id becomes returned with return date now and every other loan is unchanged. |
| Store.CreateLoanKeepsConsistent | components/LoansManager.tsx:20-40 | Lending an available book under a fresh loan id keeps ids unique, keeps "loaned iff an active loan references it" and keeps at most one active loan per book. |
| Store.ReturnLoanKeepsConsistent | components/LoansManager.tsx:49-52 | Returning an active loan keeps the same invariant: its book has no active loan left and becomes available. |
| Store.AddBookKeepsConsistent | components/BooksManager.tsx:31-38 | Adding a book under an id no book or loan uses keeps the collections consistent. |
| Store.DeleteBookKeepsConsistent | components/BooksManager.tsx:58-62 | Deleting a book keeps the collections consistent, even when an active loan references it. |
| Store.AddReaderKeepsConsistent | components/ReadersManager.tsx:23-30 | Adding a reader under a fresh id keeps the collections consistent. |
| Store.DeleteReaderKeepsConsistent | components/ReadersManager.tsx:35-39 | Deleting a reader keeps the collections consistent. |
| BooksManager.FilterBooks | components/BooksManager.tsx:26-29 | A book is listed iff the lower-cased term occurs in its lower-cased title or author. An empty term lists every book in stored order. |
| BooksManager.BookForm.constructor | components/BooksManager.tsx:16-24 | The form opens with every draft field empty and no service request outstanding. |
| BooksManager.BookForm.Submit | components/BooksManager.tsx:31-41 | Submitting appends the draft as a new available book and clears every draft field, even while a service request is outstanding. |
| BooksManager.BookForm.RequestDetails | components/BooksManager.tsx:43-49 | Without a title or an author nothing is sent and nothing changes. Otherwise the title and author are sent and the form waits. The draft is untouched either way. |
| BooksManager.BookForm.ApplyDetails | components/BooksManager.tsx:50-55 | The answer is spread into the draft as it is when the answer arrives, and the form stops waiting. |
| BooksManager.WithDetails | components/BooksManager.tsx:50-54 | Spreading the answer sets the genre and the description and keeps title, author and isbn. |
| BooksManager.LateAnswerFillsClearedForm | components/BooksManager.tsx:39-54 | After a submit during the wait, the late answer lands in the cleared form, so the next draft starts with that genre and description. |
| BooksManager.EditDuringWaitKept | components/BooksManager.tsx:50-54 | An edit of the title, author or isbn made during the wait survives the answer. |
| BooksManager.SubmitDuringRequest | components/BooksManager.tsx:31-55 | A submit while the service is working adds the book with what was typed, and the late answer then leaves the cleared form holding only the answer's genre and description. |
| ReadersManager.FilterReaders | components/ReadersManager.tsx:41-44 | A reader is listed iff the term, ignoring case, occurs in the name or in the sector. A reader without a sector matches by name only. An empty term lists everyone. |
| ReadersManager.ReaderForm.constructor | components/ReadersManager.tsx:14-21 | The form opens with every draft field empty. |
| ReadersManager.ReaderForm.Submit | components/ReadersManager.tsx:23-33 | Submitting appends the draft as a new reader registered now and clears the draft. |
| LoansManager.LoanForm.constructor | components/LoansManager.tsx:16-18 | The form opens with no book, no reader and no date chosen. |
| LoansManager.LoanForm.Submit | components/LoansManager.tsx:22-47 | With a book, a reader or a date missing, nothing changes. Otherwise the loan is appended, the book is marked loaned, the invariant is kept and the form is cleared. |
| LoansManager.StatusLabel | components/LoansManager.tsx:54-64 | "Devolvido" iff returned. Otherwise "Atrasado" iff the due instant is earlier than now and on another local day, and "Em Curso" iff it is not. |
| LoansManager.DueBeforeToday | components/LoansManager.tsx:58-62 | Being before the start of today is the same as being earlier than now on an earlier local calendar day. |
| LoansManager.TableOrder | components/LoansManager.tsx:99 | The table lists every loan, the last stored first. |
| ReportsManager.AvailableBooks | components/ReportsManager.tsx:19 | Exactly the available books. |
| ReportsManager.AvailableBooksKeepOrder | components/ReportsManager.tsx:19 | The list keeps stored order: it distributes over concatenation, and a single book is listed iff it is available. |
| ReportsManager.AvailableMeansNoActiveLoan | components/LoansManager.tsx:20 | Under the invariant, the available books are exactly the books that no active loan references. |
| ReportsManager.GenreKey | components/ReportsManager.tsx:23 | A book's group is its genre, or "Não Categorizado" when the genre is empty, and never the empty string. |
| ReportsManager.GenreOrder | components/ReportsManager.tsx:113 | The group keys, in the order `Object.entries` lists them: no more keys than books, and none empty. |
| ReportsManager.GenreOrderKeys | components/ReportsManager.tsx:22-27 | The group keys are pairwise distinct. They are exactly the keys of the books. |
| ReportsManager.GenreOrderPrefix | components/ReportsManager.tsx:113 | Groups are listed in first-seen order: the keys of a prefix come first, in the same order. |
| ReportsManager.GroupsOf | components/ReportsManager.tsx:22-27 | The reduce as a function of the books: a group, once created, is never empty. |
| ReportsManager.GroupsOfKeys | components/ReportsManager.tsx:24 | The reduce creates a group exactly for each listed key. |
| ReportsManager.GroupsOfFilter | components/ReportsManager.tsx:24-25 | Each group holds exactly the books of its key, in stored order. |
| ReportsManager.GroupsOfSizes | components/ReportsManager.tsx:22-27 | The group sizes add up to the number of books. |
| ReportsManager.GroupsOfCover | components/ReportsManager.tsx:22-27 | Every book is in the group of its key and in no other group. |
| ReportsManager.GroupByGenre | components/ReportsManager.tsx:22-27 | The loop builds the first-seen key order and the groups of the reduce. Each book is in exactly its own group, in stored order, and the sizes add up to the number of books. |
| ReportsManager.DueOn | components/ReportsManager.tsx:34-40 | For a filter written from a date, a loan's formatted due date equals the filter iff the loan is due on that local date. |
| ReportsManager.ScheduledReturns | components/ReportsManager.tsx:30-44 | A loan is listed iff it is active and its due date, written `YYYY-MM-DD` in local time, equals the filter. |
| ReportsManager.ScheduledReturnsOn | components/ReportsManager.tsx:34-40 | For a filter written from a date `d`, the report lists exactly the active loans due on local day `d`. |
| ReportsManager.CreatedLoanScheduledOnItsDay | components/ReportsManager.tsx:34-40 | A loan created for day `d` with the noon normalisation is listed under `d` and under no other day. |
| ReportsManager.ReturnRowOverdue | components/ReportsManager.tsx:169 | The badge compares with now itself: a loan due at noon is already late that afternoon, before the day is over. |
| ReportsManager.GenreDataAsWritten | components/ReportsManager.tsx:22-27 | The reduce on a plain object: when it completes, no group carries an inherited property name. |
| ReportsManager.AsWrittenAgrees | components/ReportsManager.tsx:22-27 | The reduce as written throws iff some book's group key is an inherited property name. Otherwise it builds exactly the groups of `GroupsOf`. |
| ReportsManager.GenreDataThrowsOnInheritedName | components/ReportsManager.tsx:22-27 | A book whose genre is "toString" makes the reduce as written fail, while the grouping puts it in a group of its own. |
| Dashboard.ActiveCount | components/Dashboard.tsx:13 | The active counter never exceeds the number of loans. It is zero iff no loan is active. |
| Dashboard.OverdueCount | components/Dashboard.tsx:14 | The late counter never exceeds the active counter. It is zero iff every active loan is due at or after now. |
| Dashboard.SummaryTiles | components/Dashboard.tsx:13-60 | The tiles show the number of books and the number of readers, and late ≤ active ≤ loans. |
| Dashboard.ActiveCountAfterCreate | components/LoansManager.tsx:39 | Lending a book adds exactly one to the active counter. |
| Dashboard.ActiveCountAfterReturn | components/LoansManager.tsx:50 | Returning an active loan takes exactly one off the active counter. |
| Dashboard.DashboardLabel | components/Dashboard.tsx:85-86 | "Devolvido" iff returned. Otherwise "Atrasado" iff due strictly before now, else "Em curso". |
| Dashboard.OverdueTileCountsBadges | components/Dashboard.tsx:14 | For stored loans, the late counter equals the number of stored loans whose dashboard badge would say "Atrasado". The screen shows badges only for the last five loans (components/Dashboard.tsx:72), so the counter can exceed the visible late badges. |
| Dashboard.TableOverdueIsDashboardOverdue | components/LoansManager.tsx:62 | A loan the loan table calls late is late on the dashboard too. |
| Dashboard.LabelsDisagreeAfterNoon | components/Dashboard.tsx:86 | One millisecond after the due noon, the dashboard says "Atrasado" while the loan table says "Em Curso". |
| Dashboard.RecentLoans | components/Dashboard.tsx:72 | At most five loans, the last stored first. |
| Dashboard.NewReaders | components/Dashboard.tsx:101 | At most five readers, the last stored first. |
| Dashboard.CreatedLoanShownFirst | components/Dashboard.tsx:72 | A loan just created heads the recent list. The rest of the list shifts down by one. |
| Dashboard.BookCaption | components/Dashboard.tsx:73-78 | "Livro Removido" when no book has the loan's book id. With unique ids, the title of that book, or the fallback when the title is empty. |
| Dashboard.ReaderCaption | components/Dashboard.tsx:74-79 | "Leitor Removido" when no reader has the loan's reader id. With unique ids, that reader's name, or the fallback when the name is empty. |
| Dashboard.DeletedBookCaption | components/BooksManager.tsx:60 | Once a book is deleted, its loans show "Livro Removido". |
| Seqs.Filter | components/BooksManager.tsx:26-29 | `filter` never lengthens the list. |
| Seqs.FilterMembers | components/BooksManager.tsx:26-29 | `filter` keeps exactly the elements that pass the test. |
| Seqs.FilterConcat | components/ReportsManager.tsx:19 | `filter` keeps order: it distributes over concatenation. |
| Seqs.Reversed | components/LoansManager.tsx:99 | `reverse` keeps the length and puts element k at position length-1-k. |
| Seqs.Find | components/Dashboard.tsx:73-74 | `find` gives the first element that satisfies the test, and nothing iff no element does. |
| Seqs.FindByKey | components/Dashboard.tsx:73-74 | Looking an element up by id finds nothing when no element carries the id and, with unique ids, exactly the element that carries it. |
| Seqs.LastNewestFirst | components/Dashboard.tsx:72 | `slice(-n).reverse()` gives the last min(n, length) elements, newest first. |
| Seqs.Without | components/BooksManager.tsx:60 | Filtering by id keeps exactly the elements with another id. |
| Text.Lower | components/BooksManager.tsx:27 | `toLowerCase` keeps the length and lower-cases each ASCII capital, leaving other characters as they are. |
| Text.Includes | components/BooksManager.tsx:27 | `includes` holds iff the needle occurs at some position of the text. |
| Text.NatToString | components/ReportsManager.tsx:36-38 | A number is written as at least one decimal digit, the digits denote the number, and the first digit is 0 only for 0 itself. |
| Text.PadStart | components/ReportsManager.tsx:36-37 | `padStart` leaves text that is long enough alone. Otherwise it reaches the width, ends with the text, and fills the front with the fill character. |
| Text.Pad2Digits | components/ReportsManager.tsx:36-37 | Below 100, two-digit padding gives exactly the tens digit then the units digit. |
| Text.Pad2Injective | components/ReportsManager.tsx:36-37 | Two-digit padding of months and days is injective. |
| Calendar.NoonOf | components/LoansManager.tsx:28 | The due instant lies on the chosen day at exactly 12:00. |
| Calendar.LocalDate | components/ReportsManager.tsx:34-37 | The local year, month and day of an instant form a valid date, namely the date of that instant's day. |
| Calendar.LocalDateOfNoon | components/LoansManager.tsx:26-28 | A date stored at noon reads back as the same date. |
| Calendar.DateOfDayNumber | components/ReportsManager.tsx:34-37 | Converting a valid date to its day number and back gives the same date. |
| Calendar.StartOfDay | components/LoansManager.tsx:58-59 | Local midnight of today is at or before now, less than a day before it, and on the same day. |
| Calendar.DayNumberInjective | components/ReportsManager.tsx:34-37 | Different valid dates have different day numbers, so the local date of an instant is unique. |
| Calendar.SameDateIffSameDay | components/ReportsManager.tsx:34-37 | Two instants have the same local date exactly when they fall on the same day. |
| Calendar.FormatDate | components/ReportsManager.tsx:38 | The text is the year's digits, "-", the two-digit month, "-" and the two-digit day. |
| Calendar.JoinDate | components/ReportsManager.tsx:38 | The year text comes first, then "-", the two-character month, "-" and the two-character day: six characters after the year. |
| Calendar.FormatDateInjective | components/ReportsManager.tsx:38-40 | Different dates are never written as the same `YYYY-MM-DD` text, so the filter picks one day. |

## Left out

- Persistence: loading the three collections from `localStorage` and saving
  them after each change (App.tsx:25-42) is browser I/O through JSON. The
  model starts from the empty default and keeps the collections in memory. A
  corrupt stored blob, which would throw, is not modelled.
- The text-generation service (services/gemini.ts) is a network call. Its
  answer, or its fallback, is the `BookDetails` parameter of
  `BookForm.ApplyDetails`. Requests that overlap are excluded because the
  button is disabled while waiting. The alert shown without a title or
  author is not modelled.
- The wall clock, `toISOString`, `toLocaleDateString` and time zones.
  - `now` is a parameter.
  - Instants are local milliseconds from 1970, so instants before 1970 are
    out of scope.
  - A due date is a valid calendar date, and the due instant is stored
    directly rather than as an ISO string. The `catch` of the report filter
    is unreachable under this representation.
  - The date filter's UTC-based default value (components/ReportsManager.tsx:16)
    and the date input's `min` (components/LoansManager.tsx:192) are not
    modelled; the filter text is a parameter.
- `crypto.randomUUID` becomes a freshness precondition on the new identifier.
  For a book, the identifier is not used by any loan either.
- `confirm` dialogs, modals, tabs, all markup, the reader avatar initial and
  the admission-date display are not modelled. The delete methods model the
  confirmed case.
- `toLowerCase` folds ASCII letters only, not the full Unicode case mapping.
- `Object.entries` lists integer-like keys (a genre "1984", say) before the
  others in ascending numeric order. `ReportsManager.GroupByGenre` keeps
  plain first-seen order.
- `LoansManager.LoanForm.Submit` requires the chosen book to be available,
  because the form lists only available books. It does not require the
  reader to exist; the model, like the code, accepts any reader id.
- `Store.Consistent` does not state that a return date comes after the loan
  date, because nothing orders successive values of `now`.

## Findings

| source | as written | input that shows it | evidently intended | confidence | as-written member | corrected member |
|---|---|---|---|---|---|---|
| components/ReportsManager.tsx:22-27 | `if (!acc[genre]) acc[genre] = []` tests a plain object, which inherits `toString`, `valueOf` and the other `Object.prototype` names, so for such a genre no group is created and `acc[genre].push` throws while the reports screen renders | one book whose genre is "toString" | every book grouped under its genre, whatever the genre's text | not executed | ReportsManager.GenreDataThrowsOnInheritedName | ReportsManager.GroupByGenre |
