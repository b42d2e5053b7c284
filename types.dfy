/** The records of the reading library: books, readers (patients) and loans,
    with their status enumerations. Timestamps that the application keeps as
    ISO strings are modelled as instants (see module Calendar). */
module Types {

  datatype Option<+T> = None | Some(value: T)

  /** Milliseconds since 1970-01-01 00:00 in the library's local time. */
  type Instant = nat

  /** A book is either on the shelf or lent out; nothing else. */
  datatype BookStatus = Available | Loaned

  /** The stored status of a loan. `Overdue` is admitted by the record type,
      but no operation ever stores it: overdue-ness is computed when shown. */
  datatype LoanStatus = Active | Returned | Overdue

  /** `isbn`, `genre` and `description` are required but may be empty. */
  datatype Book = Book(
    id: string,
    title: string,
    author: string,
    isbn: string,
    genre: string,
    description: string,
    status: BookStatus)

  /** Only `id`, `name` and `joinedAt` are required; contact and hospital
      location fields are optional. */
  datatype Reader = Reader(
    id: string,
    name: string,
    email: Option<string>,
    phone: Option<string>,
    joinedAt: Instant,
    admissionDate: Option<string>,
    sector: Option<string>,
    wing: Option<string>,
    room: Option<string>,
    bed: Option<string>)

  /** `returnDate` is the only optional field of a loan. */
  datatype Loan = Loan(
    id: string,
    bookId: string,
    readerId: string,
    loanDate: Instant,
    dueDate: Instant,
    returnDate: Option<Instant>,
    status: LoanStatus)

  /** The fields of the "new book" form. */
  datatype BookDraft = BookDraft(
    title: string,
    author: string,
    isbn: string,
    genre: string,
    description: string)

  /** The fields of the "new reader" form. */
  datatype ReaderDraft = ReaderDraft(
    name: string,
    admissionDate: string,
    sector: string,
    wing: string,
    room: string,
    bed: string)

  /** What the text-generation service suggests for a book draft. */
  datatype BookDetails = BookDetails(genre: string, description: string)

  predicate IsActive(l: Loan) {
    l.status == Active
  }
}
