/** The dashboard: four summary tiles (books, readers, active loans, overdue
    loans), the five most recent loans with their badges, and the five
    newest readers. */
module Dashboard {
  import opened Types
  import opened Seqs
  import opened Calendar
  import opened Store
  import opened LoansManager

  /** How many recent loans and new readers the dashboard lists. */
  const RecentCount: nat := 5

  /** Active and due strictly before `now` (not before the start of today). */
  function IsOverdueAt(now: Instant): Loan -> bool {
    (l: Loan) => l.status == Active && l.dueDate < now
  }

  /** The "Empréstimos" tile: how many loans are active. */
  function ActiveCount(loans: seq<Loan>): (n: nat)
    ensures n <= |loans|
    ensures n == 0 <==> forall l :: l in loans ==> l.status != Active
  {
    var active := Filter(loans, IsActive);
    FilterMembers(loans, IsActive);
    assert active != [] ==> active[0] in active;
    |active|
  }

  /** The "Atrasados" tile: how many active loans are due before `now`. It
      never exceeds the "Empréstimos" tile. */
  function OverdueCount(loans: seq<Loan>, now: Instant): (n: nat)
    ensures n <= ActiveCount(loans)
    ensures n == 0 <==> forall l :: l in loans && l.status == Active ==> l.dueDate >= now
  {
    var overdue := Filter(loans, IsOverdueAt(now));
    FilterMembers(loans, IsOverdueAt(now));
    assert overdue != [] ==> overdue[0] in overdue;
    FilterMonotone(loans, IsOverdueAt(now), IsActive);
    |overdue|
  }

  /** The figures of the four tiles. */
  datatype Tiles = Tiles(totalBooks: nat, totalReaders: nat, activeLoans: nat, overdueLoans: nat)

  function SummaryTiles(books: seq<Book>, readers: seq<Reader>, loans: seq<Loan>, now: Instant): (t: Tiles)
    ensures t.totalBooks == |books| && t.totalReaders == |readers|
    ensures t.overdueLoans <= t.activeLoans <= |loans|
  {
    Tiles(|books|, |readers|, ActiveCount(loans), OverdueCount(loans, now))
  }

  /** Lending a book adds one to the "Empréstimos" tile. */
  lemma ActiveCountAfterCreate(loans: seq<Loan>, id: string, bookId: string, readerId: string,
                               now: Instant, due: Date)
    requires ValidDate(due)
    ensures ActiveCount(loans + [NewLoan(id, bookId, readerId, now, due)]) == ActiveCount(loans) + 1
  {
    FilterSnoc(loans, NewLoan(id, bookId, readerId, now, due), IsActive);
  }

  /** Returning an active loan takes one off the "Empréstimos" tile. */
  lemma {:induction false} ActiveCountAfterReturn(loans: seq<Loan>, k: nat, now: Instant)
    requires k < |loans| && loans[k].status == Active && DistinctKeys(loans, LoanKey)
    ensures ActiveCount(MarkReturned(loans, loans[k].id, now)) == ActiveCount(loans) - 1
  {
    var loans' := MarkReturned(loans, loans[k].id, now);
    var before, after := loans[..k], loans[k + 1..];
    assert loans == before + [loans[k]] + after;
    assert loans'[..k] == before by {
      forall j | 0 <= j < k ensures loans'[j] == loans[j] {
        assert LoanKey(loans[j]) != LoanKey(loans[k]);
      }
    }
    assert loans'[k + 1..] == after by {
      forall j | k < j < |loans| ensures loans'[j] == loans[j] {
        assert LoanKey(loans[k]) != LoanKey(loans[j]);
      }
    }
    assert loans' == before + [loans'[k]] + after;
    FilterConcat(before + [loans[k]], after, IsActive);
    FilterConcat(before, [loans[k]], IsActive);
    FilterConcat(before + [loans'[k]], after, IsActive);
    FilterConcat(before, [loans'[k]], IsActive);
    assert [loans[k]][1..] == [] && [loans'[k]][1..] == [];
  }

  /** The badge of a recent loan: "Devolvido", else "Atrasado" when the due
      instant is strictly before `now`, else "Em curso". */
  function DashboardLabel(loan: Loan, now: Instant): (shown: string)
    ensures shown == "Devolvido" <==> loan.status == Returned
    ensures shown == "Atrasado" <==> loan.status != Returned && loan.dueDate < now
    ensures shown == "Em curso" <==> loan.status != Returned && loan.dueDate >= now
  {
    if loan.status == Returned then "Devolvido"
    else if loan.dueDate < now then "Atrasado"
    else "Em curso"
  }

  /** For stored loans (never `Overdue`), the "Atrasados" tile counts exactly
      the loans whose dashboard badge says "Atrasado". */
  lemma OverdueTileCountsBadges(loans: seq<Loan>, now: Instant)
    requires LoansWellFormed(loans)
    ensures OverdueCount(loans, now) == |Filter(loans, (l: Loan) => DashboardLabel(l, now) == "Atrasado")|
  {
    FilterCongruent(loans, IsOverdueAt(now), (l: Loan) => DashboardLabel(l, now) == "Atrasado");
  }

  /** Whatever the loan table shows as "Atrasado", the dashboard does too. */
  lemma TableOverdueIsDashboardOverdue(loan: Loan, now: Instant)
    requires StatusLabel(loan, now) == "Atrasado"
    ensures DashboardLabel(loan, now) == "Atrasado"
  {
  }

  /** The two screens disagree on the afternoon of the due day: one
      millisecond after the noon a loan is due, the dashboard already says
      "Atrasado" while the loan table still says "Em Curso". */
  lemma LabelsDisagreeAfterNoon(loan: Loan, d: Date)
    requires ValidDate(d) && loan.status == Active && loan.dueDate == NoonOf(d)
    ensures DashboardLabel(loan, NoonOf(d) + 1) == "Atrasado"
    ensures StatusLabel(loan, NoonOf(d) + 1) == "Em Curso"
  {
    var due, now := NoonOf(d), NoonOf(d) + 1;
    assert now == DayNumber(d) * MsPerDay + (12 * MsPerHour + 1);
    DivOfDayOffset(DayNumber(d), 12 * MsPerHour + 1);
    assert now / MsPerDay == due / MsPerDay;
    SameDateIffSameDay(due, now);
  }

  lemma DivOfDayOffset(n: nat, offset: nat)
    requires offset < MsPerDay
    ensures (n * MsPerDay + offset) / MsPerDay == n
  {
  }

  /** `loans.slice(-5).reverse()`: the five most recent loans, newest first. */
  function RecentLoans(loans: seq<Loan>): (rows: seq<Loan>)
    ensures |rows| == Min(RecentCount, |loans|)
    ensures forall k :: 0 <= k < |rows| ==> rows[k] == loans[|loans| - 1 - k]
  {
    LastNewestFirst(loans, RecentCount)
  }

  /** `readers.slice(-5).reverse()`: the five newest readers, newest first. */
  function NewReaders(readers: seq<Reader>): (rows: seq<Reader>)
    ensures |rows| == Min(RecentCount, |readers|)
    ensures forall k :: 0 <= k < |rows| ==> rows[k] == readers[|readers| - 1 - k]
  {
    LastNewestFirst(readers, RecentCount)
  }

  /** A loan just created heads the recent-loans list. */
  lemma CreatedLoanShownFirst(loans: seq<Loan>, l: Loan)
    ensures RecentLoans(loans + [l])[0] == l
    ensures forall k :: 0 < k < |RecentLoans(loans + [l])| ==> RecentLoans(loans + [l])[k] == RecentLoans(loans)[k - 1]
  {
    var rows, rows' := RecentLoans(loans), RecentLoans(loans + [l]);
    forall k | 0 < k < |rows'| ensures rows'[k] == rows[k - 1] {
      assert (loans + [l])[|loans| - k] == loans[|loans| - 1 - (k - 1)];
    }
  }

  /** `book?.title || 'Livro Removido'` with `book` the first book carrying
      the loan's book id. */
  function BookCaption(books: seq<Book>, loan: Loan): (caption: string)
    ensures (forall b :: b in books ==> b.id != loan.bookId) ==> caption == "Livro Removido"
    ensures forall b :: b in books && b.id == loan.bookId && DistinctKeys(books, BookKey) ==>
      caption == if b.title == "" then "Livro Removido" else b.title
  {
    var found := Find(books, KeyIs(BookKey, loan.bookId));
    FindByKey(books, BookKey, loan.bookId);
    if found.None? || found.value.title == "" then "Livro Removido" else found.value.title
  }

  /** `reader?.name || 'Leitor Removido'` with `reader` the first reader
      carrying the loan's reader id. */
  function ReaderCaption(readers: seq<Reader>, loan: Loan): (caption: string)
    ensures (forall r :: r in readers ==> r.id != loan.readerId) ==> caption == "Leitor Removido"
    ensures forall r :: r in readers && r.id == loan.readerId && DistinctKeys(readers, ReaderKey) ==>
      caption == if r.name == "" then "Leitor Removido" else r.name
  {
    var found := Find(readers, KeyIs(ReaderKey, loan.readerId));
    FindByKey(readers, ReaderKey, loan.readerId);
    if found.None? || found.value.name == "" then "Leitor Removido" else found.value.name
  }

  /** Once a book is deleted, every loan of it shows "Livro Removido". */
  lemma DeletedBookCaption(books: seq<Book>, id: string, loan: Loan)
    requires loan.bookId == id
    ensures BookCaption(Without(books, BookKey, id), loan) == "Livro Removido"
  {
  }
}
