/** The loans screen: the "new loan" form, the status label of each row of
    the loan table and the table's newest-first order. */
module LoansManager {
  import opened Types
  import opened Seqs
  import opened Calendar
  import opened Store

  /** The state of the "new loan" form: the chosen book and reader
      identifiers ("" when none is chosen) and the chosen due day (`None`
      when the date input is empty). */
  class LoanForm {
    var selectedBook: string
    var selectedReader: string
    var dueDate: Option<Date>

    constructor ()
      ensures selectedBook == "" && selectedReader == "" && dueDate == None
    {
      selectedBook, selectedReader, dueDate := "", "", None;
    }

    /** `handleCreateLoan`. With a book, a reader and a date chosen, it
        appends an active loan due at noon of that date, marks the book
        loaned and clears the form; otherwise it changes nothing. The book
        list offers only available books, hence the requirement on
        `selectedBook`. */
    method Submit(lib: Library, id: string, now: Instant)
      requires lib.Valid() && FreshLoanId(lib.loans, id)
      requires selectedBook != "" ==> IsAvailableBook(lib.books, selectedBook)
      requires dueDate.Some? ==> ValidDate(dueDate.value)
      modifies this, lib
      ensures lib.Valid()
      ensures old(selectedBook == "" || selectedReader == "" || dueDate.None?) ==>
        lib.books == old(lib.books) && lib.readers == old(lib.readers) && lib.loans == old(lib.loans) &&
        selectedBook == old(selectedBook) && selectedReader == old(selectedReader) && dueDate == old(dueDate)
      ensures old(selectedBook != "" && selectedReader != "" && dueDate.Some?) ==>
        && lib.loans == old(lib.loans) + [NewLoan(id, old(selectedBook), old(selectedReader), now, old(dueDate).value)]
        && lib.books == SetBookStatus(old(lib.books), old(selectedBook), Loaned)
        && lib.readers == old(lib.readers)
        && selectedBook == "" && selectedReader == "" && dueDate == None
    {
      if selectedBook == "" || selectedReader == "" || dueDate.None? {
        return;
      }
      lib.CreateLoan(selectedBook, selectedReader, dueDate.value, id, now);
      selectedBook, selectedReader, dueDate := "", "", None;
    }
  }

  /** `getStatusLabel`: "Devolvido" for a returned loan; otherwise
      "Atrasado" when the due instant is before the start of today, else
      "Em Curso". */
  function StatusLabel(loan: Loan, now: Instant): (shown: string)
    ensures shown == "Devolvido" <==> loan.status == Returned
    ensures shown == "Atrasado" <==> loan.status != Returned && LocalDate(loan.dueDate) != LocalDate(now)
                                     && loan.dueDate < now
    ensures shown == "Em Curso" <==> loan.status != Returned && (loan.dueDate >= now || LocalDate(loan.dueDate) == LocalDate(now))
  {
    DueBeforeToday(loan.dueDate, now);
    if loan.status == Returned then "Devolvido"
    else if loan.dueDate < StartOfDay(now) then "Atrasado"
    else "Em Curso"
  }

  /** An instant is before the start of today exactly when it is earlier
      than now and on another local calendar day. */
  lemma DueBeforeToday(due: Instant, now: Instant)
    ensures due < StartOfDay(now) <==> due < now && LocalDate(due) != LocalDate(now)
    ensures due < StartOfDay(now) <==> DayNumber(LocalDate(due)) < DayNumber(LocalDate(now))
  {
    var a, b := LocalDate(due), LocalDate(now);
    if a == b {
      assert due / MsPerDay == now / MsPerDay;
    } else {
      assert due / MsPerDay != now / MsPerDay;
    }
  }

  /** `loans.slice().reverse()`: the loan table lists every loan, the most
      recent first, and leaves the stored collection as it is. */
  function TableOrder(loans: seq<Loan>): (rows: seq<Loan>)
    ensures |rows| == |loans|
    ensures forall k :: 0 <= k < |rows| ==> rows[k] == loans[|loans| - 1 - k]
  {
    Reversed(loans)
  }
}
