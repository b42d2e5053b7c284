/** The application's three collections (books, readers, loans) and the
    state changes the management screens make to them. The central invariant
    ties a book's status to the loans: a book is `Loaned` exactly when some
    active loan references it, and no book has two active loans. The screens
    do not check it; they keep it because they offer only available books for
    a new loan and the return action only for active loans. */
module Store {
  import opened Types
  import opened Seqs
  import opened Calendar

  function BookKey(b: Book): string { b.id }
  function ReaderKey(r: Reader): string { r.id }
  function LoanKey(l: Loan): string { l.id }

  ghost predicate HasActiveLoan(loans: seq<Loan>, bookId: string) {
    exists j :: 0 <= j < |loans| && loans[j].status == Active && loans[j].bookId == bookId
  }

  /** A book is loaned iff an active loan references it. */
  ghost predicate LoanedIffActive(books: seq<Book>, loans: seq<Loan>) {
    forall b :: b in books ==> (b.status == Loaned <==> HasActiveLoan(loans, b.id))
  }

  /** No two active loans reference the same book. */
  ghost predicate AtMostOneActive(loans: seq<Loan>) {
    forall i, j :: 0 <= i < j < |loans| && loans[i].status == Active && loans[j].status == Active
      ==> loans[i].bookId != loans[j].bookId
  }

  /** No stored loan is `Overdue`, and exactly the returned loans carry a
      return date. */
  ghost predicate LoansWellFormed(loans: seq<Loan>) {
    forall j :: 0 <= j < |loans| ==>
      loans[j].status != Overdue && (loans[j].status == Returned <==> loans[j].returnDate.Some?)
  }

  ghost predicate Consistent(books: seq<Book>, readers: seq<Reader>, loans: seq<Loan>) {
    && DistinctKeys(books, BookKey)
    && DistinctKeys(readers, ReaderKey)
    && DistinctKeys(loans, LoanKey)
    && LoanedIffActive(books, loans)
    && AtMostOneActive(loans)
    && LoansWellFormed(loans)
  }

  /** The loan form offers only the books whose status is available. */
  predicate IsAvailableBook(books: seq<Book>, id: string) {
    exists i :: 0 <= i < |books| && books[i].id == id && books[i].status == Available
  }

  /** A fresh identifier (`crypto.randomUUID()`) for a book: no book has it
      and no loan, even one whose book was deleted, references it. */
  predicate FreshBookId(books: seq<Book>, loans: seq<Loan>, id: string) {
    (forall i :: 0 <= i < |books| ==> books[i].id != id) &&
    (forall j :: 0 <= j < |loans| ==> loans[j].bookId != id)
  }

  predicate FreshReaderId(readers: seq<Reader>, id: string) {
    forall i :: 0 <= i < |readers| ==> readers[i].id != id
  }

  predicate FreshLoanId(loans: seq<Loan>, id: string) {
    forall j :: 0 <= j < |loans| ==> loans[j].id != id
  }

  /** `{ ...newBook, id, status: 'available' }`. */
  function NewBook(draft: BookDraft, id: string): (b: Book)
    ensures b.status == Available && b.id == id
    ensures BookDraft(b.title, b.author, b.isbn, b.genre, b.description) == draft
  {
    Book(id, draft.title, draft.author, draft.isbn, draft.genre, draft.description, Available)
  }

  /** `{ ...newReader, id, joinedAt: now }`: the form's fields are all
      present; email and phone are not asked for. */
  function NewReader(draft: ReaderDraft, id: string, now: Instant): (r: Reader)
    ensures r.id == id && r.name == draft.name && r.joinedAt == now
    ensures r.email == None && r.phone == None
    ensures r.admissionDate == Some(draft.admissionDate) && r.sector == Some(draft.sector)
    ensures r.wing == Some(draft.wing) && r.room == Some(draft.room) && r.bed == Some(draft.bed)
  {
    Reader(id, draft.name, None, None, now, Some(draft.admissionDate), Some(draft.sector),
           Some(draft.wing), Some(draft.room), Some(draft.bed))
  }

  /** The loan `handleCreateLoan` appends: active, lent now, due at noon of
      the chosen day, not returned. */
  function NewLoan(id: string, bookId: string, readerId: string, now: Instant, due: Date): (l: Loan)
    requires ValidDate(due)
    ensures l.status == Active && l.returnDate == None && l.loanDate == now
    ensures l.id == id && l.bookId == bookId && l.readerId == readerId
    ensures LocalDate(l.dueDate) == due && l.dueDate % MsPerDay == 12 * MsPerHour
  {
    LocalDateOfNoon(due);
    Loan(id, bookId, readerId, now, NoonOf(due), None, Active)
  }

  /** `books.map(b => b.id === id ? { ...b, status } : b)`. */
  function SetBookStatus(books: seq<Book>, id: string, status: BookStatus): (r: seq<Book>)
    ensures |r| == |books|
    ensures forall i :: 0 <= i < |r| ==>
      r[i] == if books[i].id == id then books[i].(status := status) else books[i]
  {
    seq(|books|, i requires 0 <= i < |books| =>
      if books[i].id == id then books[i].(status := status) else books[i])
  }

  /** `loans.map(l => l.id === id ? { ...l, status: 'returned', returnDate: now } : l)`. */
  function MarkReturned(loans: seq<Loan>, id: string, now: Instant): (r: seq<Loan>)
    ensures |r| == |loans|
    ensures forall j :: 0 <= j < |r| ==>
      r[j] == if loans[j].id == id then loans[j].(status := Returned, returnDate := Some(now)) else loans[j]
  {
    seq(|loans|, j requires 0 <= j < |loans| =>
      if loans[j].id == id then loans[j].(status := Returned, returnDate := Some(now)) else loans[j])
  }

  /** Creating a loan for an available book keeps the collections consistent. */
  lemma CreateLoanKeepsConsistent(books: seq<Book>, readers: seq<Reader>, loans: seq<Loan>,
                                  id: string, bookId: string, readerId: string, now: Instant, due: Date)
    requires Consistent(books, readers, loans)
    requires IsAvailableBook(books, bookId) && FreshLoanId(loans, id) && ValidDate(due)
    ensures Consistent(SetBookStatus(books, bookId, Loaned), readers,
                       loans + [NewLoan(id, bookId, readerId, now, due)])
  {
    var books', l := SetBookStatus(books, bookId, Loaned), NewLoan(id, bookId, readerId, now, due);
    var loans' := loans + [l];
    assert !HasActiveLoan(loans, bookId) by {
      var k :| 0 <= k < |books| && books[k].id == bookId && books[k].status == Available;
      assert books[k] in books;
    }
    assert LoanedIffActive(books', loans') by {
      assert HasActiveLoan(loans', bookId) by {
        assert loans'[|loans|] == l;
      }
      forall x | x != bookId ensures HasActiveLoan(loans', x) == HasActiveLoan(loans, x) {
        if HasActiveLoan(loans, x) {
          var j :| 0 <= j < |loans| && loans[j].status == Active && loans[j].bookId == x;
          assert loans'[j] == loans[j];
        }
      }
      forall b' | b' in books' ensures b'.status == Loaned <==> HasActiveLoan(loans', b'.id) {
        var i :| 0 <= i < |books'| && books'[i] == b';
        assert books[i] in books;
      }
    }
    SetBookStatusKeepsKeys(books, bookId, Loaned);
    assert DistinctKeys(loans', LoanKey);
    assert AtMostOneActive(loans') by {
      forall i, j | 0 <= i < j < |loans'| && loans'[i].status == Active && loans'[j].status == Active
        ensures loans'[i].bookId != loans'[j].bookId
      {
        if j == |loans| {
          assert loans'[i] == loans[i];
        }
      }
    }
  }

  /** Changing statuses keeps the book identifiers distinct. */
  lemma SetBookStatusKeepsKeys(books: seq<Book>, id: string, status: BookStatus)
    requires DistinctKeys(books, BookKey)
    ensures DistinctKeys(SetBookStatus(books, id, status), BookKey)
  {
    var books' := SetBookStatus(books, id, status);
    forall i, j | 0 <= i < j < |books'| ensures books'[i].id != books'[j].id {
      assert books'[i].id == books[i].id && books'[j].id == books[j].id;
    }
  }

  /** Returning an active loan keeps the collections consistent. */
  lemma ReturnLoanKeepsConsistent(books: seq<Book>, readers: seq<Reader>, loans: seq<Loan>,
                                  k: nat, now: Instant)
    requires Consistent(books, readers, loans)
    requires k < |loans| && loans[k].status == Active
    ensures Consistent(SetBookStatus(books, loans[k].bookId, Available), readers,
                       MarkReturned(loans, loans[k].id, now))
  {
    var bookId := loans[k].bookId;
    var books', loans' := SetBookStatus(books, bookId, Available), MarkReturned(loans, loans[k].id, now);
    assert forall j :: 0 <= j < |loans| && j != k ==> loans'[j] == loans[j] by {
      forall j | 0 <= j < |loans| && j != k ensures loans'[j] == loans[j] {
        assert LoanKey(loans[j]) != LoanKey(loans[k]);
      }
    }
    assert LoanedIffActive(books', loans') by {
      assert loans'[k].status == Returned;
      assert !HasActiveLoan(loans', bookId) by {
        forall j | 0 <= j < |loans'| && loans'[j].status == Active ensures loans'[j].bookId != bookId {
          if j < k {
            assert loans[j].status == Active;
          } else if j > k {
            assert loans[j].status == Active;
          }
        }
      }
      forall x | x != bookId ensures HasActiveLoan(loans', x) == HasActiveLoan(loans, x) {
        if HasActiveLoan(loans, x) {
          var j :| 0 <= j < |loans| && loans[j].status == Active && loans[j].bookId == x;
          assert loans'[j] == loans[j];
        }
        if HasActiveLoan(loans', x) {
          var j :| 0 <= j < |loans'| && loans'[j].status == Active && loans'[j].bookId == x;
          assert loans'[j] == loans[j];
        }
      }
      forall b' | b' in books' ensures b'.status == Loaned <==> HasActiveLoan(loans', b'.id) {
        var i :| 0 <= i < |books'| && books'[i] == b';
        assert books[i] in books;
      }
    }
    SetBookStatusKeepsKeys(books, bookId, Available);
    assert DistinctKeys(loans', LoanKey) by {
      forall i, j | 0 <= i < j < |loans'| ensures loans'[i].id != loans'[j].id {
        assert loans'[i].id == loans[i].id && loans'[j].id == loans[j].id;
      }
    }
    assert AtMostOneActive(loans') by {
      forall i, j | 0 <= i < j < |loans'| && loans'[i].status == Active && loans'[j].status == Active
        ensures loans'[i].bookId != loans'[j].bookId
      {
        assert loans'[i] == loans[i] && loans'[j] == loans[j];
      }
    }
  }

  /** Adding a book under a fresh identifier keeps the collections consistent. */
  lemma AddBookKeepsConsistent(books: seq<Book>, readers: seq<Reader>, loans: seq<Loan>,
                               draft: BookDraft, id: string)
    requires Consistent(books, readers, loans) && FreshBookId(books, loans, id)
    ensures Consistent(books + [NewBook(draft, id)], readers, loans)
  {
    var books' := books + [NewBook(draft, id)];
    forall b' | b' in books' ensures b'.status == Loaned <==> HasActiveLoan(loans, b'.id) {
      if b' !in books {
        assert b' == NewBook(draft, id);
      }
    }
  }

  /** Deleting a book keeps the collections consistent; active loans on it
      are left dangling, which the invariant allows. */
  lemma DeleteBookKeepsConsistent(books: seq<Book>, readers: seq<Reader>, loans: seq<Loan>, id: string)
    requires Consistent(books, readers, loans)
    ensures Consistent(Without(books, BookKey, id), readers, loans)
  {
    WithoutKeepsDistinct(books, BookKey, id);
  }

  /** Adding a reader under a fresh identifier keeps the collections consistent. */
  lemma AddReaderKeepsConsistent(books: seq<Book>, readers: seq<Reader>, loans: seq<Loan>,
                                 draft: ReaderDraft, id: string, now: Instant)
    requires Consistent(books, readers, loans) && FreshReaderId(readers, id)
    ensures Consistent(books, readers + [NewReader(draft, id, now)], loans)
  {
  }

  /** Deleting a reader keeps the collections consistent. */
  lemma DeleteReaderKeepsConsistent(books: seq<Book>, readers: seq<Reader>, loans: seq<Loan>, id: string)
    requires Consistent(books, readers, loans)
    ensures Consistent(books, Without(readers, ReaderKey, id), loans)
  {
    WithoutKeepsDistinct(readers, ReaderKey, id);
  }

  /** The application state: the three collections, each replaced whole by
      the screens' handlers. */
  class Library {
    var books: seq<Book>
    var readers: seq<Reader>
    var loans: seq<Loan>

    ghost predicate Valid()
      reads this
    {
      Consistent(books, readers, loans)
    }

    /** The state when nothing is stored yet. */
    constructor ()
      ensures Valid() && books == [] && readers == [] && loans == []
    {
      books, readers, loans := [], [], [];
    }

    /** Appends a new available book built from the draft. */
    method AddBook(draft: BookDraft, id: string)
      requires Valid() && FreshBookId(books, loans, id)
      modifies this
      ensures Valid()
      ensures books == old(books) + [NewBook(draft, id)]
      ensures readers == old(readers) && loans == old(loans)
    {
      AddBookKeepsConsistent(books, readers, loans, draft, id);
      books := books + [NewBook(draft, id)];
    }

    /** Removes the book with identifier `id`, whatever loans reference it. */
    method DeleteBook(id: string)
      requires Valid()
      modifies this
      ensures Valid()
      ensures books == Without(old(books), BookKey, id)
      ensures forall i :: 0 <= i < |old(books)| && old(books)[i].id == id ==>
        books == old(books)[..i] + old(books)[i + 1..]
      ensures (forall i :: 0 <= i < |old(books)| ==> old(books)[i].id != id) ==> books == old(books)
      ensures readers == old(readers) && loans == old(loans)
    {
      DeleteBookKeepsConsistent(books, readers, loans, id);
      forall i | 0 <= i < |books| && books[i].id == id
        ensures Without(books, BookKey, id) == books[..i] + books[i + 1..]
      {
        WithoutPresent(books, BookKey, i);
      }
      if forall i :: 0 <= i < |books| ==> books[i].id != id {
        WithoutAbsent(books, BookKey, id);
      }
      books := Without(books, BookKey, id);
    }

    /** Appends a new reader built from the draft, registered at `now`. */
    method AddReader(draft: ReaderDraft, id: string, now: Instant)
      requires Valid() && FreshReaderId(readers, id)
      modifies this
      ensures Valid()
      ensures readers == old(readers) + [NewReader(draft, id, now)]
      ensures books == old(books) && loans == old(loans)
    {
      AddReaderKeepsConsistent(books, readers, loans, draft, id, now);
      readers := readers + [NewReader(draft, id, now)];
    }

    /** Removes the reader with identifier `id`, whatever loans reference it. */
    method DeleteReader(id: string)
      requires Valid()
      modifies this
      ensures Valid()
      ensures readers == Without(old(readers), ReaderKey, id)
      ensures forall i :: 0 <= i < |old(readers)| && old(readers)[i].id == id ==>
        readers == old(readers)[..i] + old(readers)[i + 1..]
      ensures (forall i :: 0 <= i < |old(readers)| ==> old(readers)[i].id != id) ==> readers == old(readers)
      ensures books == old(books) && loans == old(loans)
    {
      DeleteReaderKeepsConsistent(books, readers, loans, id);
      forall i | 0 <= i < |readers| && readers[i].id == id
        ensures Without(readers, ReaderKey, id) == readers[..i] + readers[i + 1..]
      {
        WithoutPresent(readers, ReaderKey, i);
      }
      if forall i :: 0 <= i < |readers| ==> readers[i].id != id {
        WithoutAbsent(readers, ReaderKey, id);
      }
      readers := Without(readers, ReaderKey, id);
    }

    /** Appends an active loan of book `bookId` to reader `readerId`, due at
        noon of `due`, and marks that book loaned. */
    method CreateLoan(bookId: string, readerId: string, due: Date, id: string, now: Instant)
      requires Valid() && IsAvailableBook(books, bookId) && ValidDate(due) && FreshLoanId(loans, id)
      modifies this
      ensures Valid()
      ensures loans == old(loans) + [NewLoan(id, bookId, readerId, now, due)]
      ensures |books| == |old(books)|
      ensures forall i :: 0 <= i < |books| ==>
        books[i] == if old(books)[i].id == bookId then old(books)[i].(status := Loaned) else old(books)[i]
      ensures readers == old(readers)
    {
      CreateLoanKeepsConsistent(books, readers, loans, id, bookId, readerId, now, due);
      loans := loans + [NewLoan(id, bookId, readerId, now, due)];
      books := SetBookStatus(books, bookId, Loaned);
    }

    /** Marks the active loan `loan` returned at `now` and its book available. */
    method ReturnLoan(loan: Loan, now: Instant)
      requires Valid() && loan in loans && loan.status == Active
      modifies this
      ensures Valid()
      ensures |loans| == |old(loans)|
      ensures forall j :: 0 <= j < |loans| ==>
        loans[j] == if old(loans)[j] == loan then loan.(status := Returned, returnDate := Some(now))
                    else old(loans)[j]
      ensures |books| == |old(books)|
      ensures forall i :: 0 <= i < |books| ==>
        books[i] == if old(books)[i].id == loan.bookId then old(books)[i].(status := Available) else old(books)[i]
      ensures readers == old(readers)
    {
      ghost var k :| 0 <= k < |loans| && loans[k] == loan;
      ReturnLoanKeepsConsistent(books, readers, loans, k, now);
      forall j | 0 <= j < |loans| ensures loans[j].id == loan.id <==> loans[j] == loan {
        assert j != k ==> LoanKey(loans[j]) != LoanKey(loans[k]);
      }
      loans := MarkReturned(loans, loan.id, now);
      books := SetBookStatus(books, loan.bookId, Available);
    }
  }
}
