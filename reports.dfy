/** The reports screen: available books, the collection grouped by genre,
    and the active loans due on a chosen calendar day. */
module ReportsManager {
  import opened Types
  import opened Seqs
  import opened Text
  import opened Calendar
  import opened Store

  function IsAvailable(b: Book): bool { b.status == Available }

  /** `books.filter(b => b.status === 'available')`: exactly the available
      books, in stored order. */
  function AvailableBooks(books: seq<Book>): (r: seq<Book>)
    ensures forall b :: b in r <==> b in books && b.status == Available
    ensures |r| <= |books|
  {
    FilterMembers(books, IsAvailable);
    Filter(books, IsAvailable)
  }

  /** The list keeps stored order: the available books of two stretches of
      the collection are those of the first followed by those of the second,
      and a single book is listed exactly when it is available. */
  lemma AvailableBooksKeepOrder(a: seq<Book>, b: seq<Book>, book: Book)
    ensures AvailableBooks(a + b) == AvailableBooks(a) + AvailableBooks(b)
    ensures AvailableBooks([book]) == if book.status == Available then [book] else []
  {
    FilterConcat(a, b, IsAvailable);
    assert [book][1..] == [];
  }

  /** Under the library invariant, the available books are exactly the books
      that no active loan references. */
  lemma AvailableMeansNoActiveLoan(books: seq<Book>, readers: seq<Reader>, loans: seq<Loan>)
    requires Consistent(books, readers, loans)
    ensures forall b :: b in AvailableBooks(books) <==> b in books && !HasActiveLoan(loans, b.id)
  {
    forall b | b in books ensures b.status == Available <==> !HasActiveLoan(loans, b.id) {
      assert b.status == Loaned <==> HasActiveLoan(loans, b.id);
    }
  }

  const Uncategorized := "Não Categorizado"

  /** `book.genre || 'Não Categorizado'`: the group a book falls in. */
  function GenreKey(b: Book): (g: string)
    ensures g != ""
    ensures b.genre != "" ==> g == b.genre
    ensures b.genre == "" ==> g == Uncategorized
  {
    if b.genre == "" then Uncategorized else b.genre
  }

  function InGenre(g: string): Book -> bool {
    b => GenreKey(b) == g
  }

  /** The group keys in the order they are first met in `books`. */
  function GenreOrder(books: seq<Book>): (r: seq<string>)
    ensures |r| <= |books|
    ensures forall g :: g in r ==> g != ""
  {
    if books == [] then []
    else
      var earlier := GenreOrder(books[..|books| - 1]);
      var g := GenreKey(books[|books| - 1]);
      if g in earlier then earlier else earlier + [g]
  }

  /** Each key appears once, and the keys are exactly the groups of the books. */
  lemma {:induction false} GenreOrderKeys(books: seq<Book>)
    ensures forall i, j :: 0 <= i < j < |GenreOrder(books)| ==> GenreOrder(books)[i] != GenreOrder(books)[j]
    ensures forall b :: b in books ==> GenreKey(b) in GenreOrder(books)
    ensures forall g :: g in GenreOrder(books) ==> exists b :: b in books && GenreKey(b) == g
  {
    if books != [] {
      var init := books[..|books| - 1];
      GenreOrderKeys(init);
      assert books == init + [books[|books| - 1]];
    }
  }

  /** First-seen order: the keys met in a prefix of the books come first, in
      the same order. */
  lemma {:induction false} GenreOrderPrefix(books: seq<Book>, k: nat)
    requires k <= |books|
    ensures GenreOrder(books[..k]) <= GenreOrder(books)
    decreases |books| - k
  {
    if k < |books| {
      GenreOrderPrefix(books, k + 1);
      assert books[..k + 1][..k] == books[..k];
    } else {
      assert books[..k] == books;
    }
  }

  /** Sum of the sizes of the groups listed in `keys`. */
  function GroupSizes(keys: seq<string>, groups: map<string, seq<Book>>): nat
  {
    if keys == [] then 0
    else
      var g := keys[|keys| - 1];
      GroupSizes(keys[..|keys| - 1], groups) + (if g in groups then |groups[g]| else 0)
  }

  lemma {:induction false} GroupSizesOtherKey(keys: seq<string>, groups: map<string, seq<Book>>,
                                              g: string, items: seq<Book>)
    requires g !in keys
    ensures GroupSizes(keys, groups[g := items]) == GroupSizes(keys, groups)
  {
    if keys != [] {
      GroupSizesOtherKey(keys[..|keys| - 1], groups, g, items);
    }
  }

  lemma {:induction false} GroupSizesUpdate(keys: seq<string>, groups: map<string, seq<Book>>,
                                            g: string, items: seq<Book>)
    requires g in keys && g in groups
    requires forall i, j :: 0 <= i < j < |keys| ==> keys[i] != keys[j]
    ensures GroupSizes(keys, groups[g := items]) == GroupSizes(keys, groups) - |groups[g]| + |items|
  {
    var init, last := keys[..|keys| - 1], keys[|keys| - 1];
    if last == g {
      assert g !in init by {
        forall i | 0 <= i < |init| ensures init[i] != g {
          assert keys[i] == init[i];
        }
      }
      GroupSizesOtherKey(init, groups, g, items);
    } else {
      GroupSizesUpdate(init, groups, g, items);
    }
  }

  /** The genre reduce as a function: the accumulated map after `books`,
      each book pushed onto the group of its key, the group created empty
      the first time its key is met. */
  function GroupsOf(books: seq<Book>): (r: map<string, seq<Book>>)
    ensures forall g :: g in r ==> r[g] != []
  {
    if books == [] then map[]
    else
      var prev := GroupsOf(books[..|books| - 1]);
      var book := books[|books| - 1];
      var g := GenreKey(book);
      prev[g := (if g in prev then prev[g] else []) + [book]]
  }

  /** The reduce creates a group exactly for the keys listed by `GenreOrder`. */
  lemma {:induction false} GroupsOfKeys(books: seq<Book>)
    ensures forall g :: g in GroupsOf(books) <==> g in GenreOrder(books)
  {
    if books != [] {
      GroupsOfKeys(books[..|books| - 1]);
    }
  }

  /** Each group holds exactly the books of its key, in stored order. */
  lemma {:induction false} GroupsOfFilter(books: seq<Book>)
    ensures forall g :: g in GroupsOf(books) ==> GroupsOf(books)[g] == Filter(books, InGenre(g))
  {
    if books != [] {
      var init, g := books[..|books| - 1], GenreKey(books[|books| - 1]);
      assert forall h :: h in GroupsOf(init) ==> GroupsOf(init)[h] == Filter(init, InGenre(h)) by {
        GroupsOfFilter(init);
      }
      assert g !in GroupsOf(init) ==> Filter(init, InGenre(g)) == [] by {
        GroupsOfKeys(init);
        if g !in GroupsOf(init) {
          NewGroupEmpty(init, g);
        }
      }
      StepFilters(books);
    }
  }

  /** The groups together hold every book once. */
  lemma {:induction false} GroupsOfSizes(books: seq<Book>)
    ensures GroupSizes(GenreOrder(books), GroupsOf(books)) == |books|
  {
    if books != [] {
      var init, book := books[..|books| - 1], books[|books| - 1];
      GroupsOfSizes(init);
      GroupsOfKeys(init);
      GenreOrderKeys(init);
      StepSizes(GenreOrder(init), GroupsOf(init), GenreKey(book), book);
    }
  }

  /** Pushing the last book onto its group keeps every group equal to the
      filter of the books seen. */
  lemma StepFilters(books: seq<Book>)
    requires books != []
    requires var init := books[..|books| - 1];
             forall h :: h in GroupsOf(init) ==> GroupsOf(init)[h] == Filter(init, InGenre(h))
    requires var init := books[..|books| - 1];
             GenreKey(books[|books| - 1]) !in GroupsOf(init) ==> Filter(init, InGenre(GenreKey(books[|books| - 1]))) == []
    ensures forall h :: h in GroupsOf(books) ==> GroupsOf(books)[h] == Filter(books, InGenre(h))
  {
    var init, book := books[..|books| - 1], books[|books| - 1];
    assert init + [book] == books;
    forall h | h in GroupsOf(books)
      ensures GroupsOf(books)[h] == Filter(books, InGenre(h))
    {
      FilterSnoc(init, book, InGenre(h));
    }
  }

  /** A genre not yet met has no books in the prefix. */
  lemma NewGroupEmpty(prefix: seq<Book>, g: string)
    requires g !in GenreOrder(prefix)
    ensures Filter(prefix, InGenre(g)) == []
  {
    GenreOrderKeys(prefix);
    forall k | 0 <= k < |prefix| ensures !InGenre(g)(prefix[k]) {
      assert prefix[k] in prefix;
    }
    FilterKeepsNone(prefix, InGenre(g));
  }

  /** Pushing one book adds one to the total size of the groups. */
  lemma StepSizes(genres: seq<string>, groups: map<string, seq<Book>>, g: string, book: Book)
    requires forall i, j :: 0 <= i < j < |genres| ==> genres[i] != genres[j]
    requires forall h :: h in groups <==> h in genres
    ensures var genres' := if g in groups then genres else genres + [g];
            var groups' := groups[g := (if g in groups then groups[g] else []) + [book]];
            GroupSizes(genres', groups') == GroupSizes(genres, groups) + 1
  {
    if g in groups {
      GroupSizesUpdate(genres, groups, g, groups[g] + [book]);
    } else {
      var genres' := genres + [g];
      assert [] + [book] == [book];
      assert genres'[..|genres'| - 1] == genres;
      assert g !in genres;
      GroupSizesOtherKey(genres, groups, g, [book]);
      assert GroupSizes(genres', groups[g := [book]]) == GroupSizes(genres, groups[g := [book]]) + 1;
    }
  }

  /** Every book sits in the group of its own key and in no other. */
  lemma GroupsOfCover(books: seq<Book>)
    ensures forall b :: b in books ==> GenreKey(b) in GroupsOf(books) && b in GroupsOf(books)[GenreKey(b)]
    ensures forall b, g :: b in books && g in GroupsOf(books) && b in GroupsOf(books)[g] ==> g == GenreKey(b)
  {
    GroupsOfKeys(books);
    GroupsOfFilter(books);
    GenreOrderKeys(books);
    forall g ensures forall b :: b in Filter(books, InGenre(g)) <==> b in books && GenreKey(b) == g {
      FilterMembers(books, InGenre(g));
    }
  }

  /** `genreData`: the books grouped by `GenreKey`. Returns the group keys in
      first-seen order (the order `Object.entries` lists them) and, per key,
      its books in stored order. */
  method GroupByGenre(books: seq<Book>) returns (genres: seq<string>, groups: map<string, seq<Book>>)
    ensures genres == GenreOrder(books) && groups == GroupsOf(books)
    ensures forall g :: g in groups <==> g in genres
    ensures forall g :: g in groups ==> groups[g] == Filter(books, InGenre(g))
    ensures forall b :: b in books ==> GenreKey(b) in groups && b in groups[GenreKey(b)]
    ensures forall b, g :: b in books && g in groups && b in groups[g] ==> g == GenreKey(b)
    ensures GroupSizes(genres, groups) == |books|
  {
    genres, groups := [], map[];
    var i := 0;
    while i < |books|
      invariant 0 <= i <= |books|
      invariant genres == GenreOrder(books[..i]) && groups == GroupsOf(books[..i])
    {
      var book := books[i];
      assert books[..i + 1][..i] == books[..i];
      GroupsOfKeys(books[..i]);
      var genre := GenreKey(book);
      if genre !in groups {
        groups := groups[genre := []];
        genres := genres + [genre];
      }
      groups := groups[genre := groups[genre] + [book]];
      i := i + 1;
    }
    assert books[..i] == books;
    GroupsOfKeys(books);
    GroupsOfFilter(books);
    GroupsOfSizes(books);
    GroupsOfCover(books);
  }

  /** `${y}-${m}-${d}` of the loan's due instant equals the filter. For a
      filter written from a date, that is being due on that date. */
  predicate DueOn(loan: Loan, filter: string)
    ensures forall d :: ValidDate(d) && filter == FormatDate(d) ==>
      (DueOn(loan, filter) <==> LocalDate(loan.dueDate) == d)
  {
    var due := LocalDate(loan.dueDate);
    forall d | ValidDate(d) && filter == FormatDate(d) && FormatDate(due) == filter ensures due == d {
      FormatDateInjective(due, d);
    }
    FormatDate(due) == filter
  }

  /** `scheduledReturns`: the active loans whose due date, read as a local
      calendar day and written YYYY-MM-DD, is the filter text. */
  function ScheduledReturns(loans: seq<Loan>, filter: string): (r: seq<Loan>)
    ensures forall l :: l in r <==> l in loans && l.status == Active && DueOn(l, filter)
  {
    FilterMembers(loans, (l: Loan) => l.status == Active && DueOn(l, filter));
    Filter(loans, (l: Loan) => l.status == Active && DueOn(l, filter))
  }

  /** For a date `d` picked in the filter, the report lists exactly the
      active loans due on the local calendar day `d`. */
  lemma ScheduledReturnsOn(loans: seq<Loan>, d: Date)
    requires ValidDate(d)
    ensures forall l :: l in ScheduledReturns(loans, FormatDate(d)) <==>
      l in loans && l.status == Active && LocalDate(l.dueDate) == d
  {
    forall l | l in loans && DueOn(l, FormatDate(d)) ensures LocalDate(l.dueDate) == d {
      FormatDateInjective(LocalDate(l.dueDate), d);
    }
  }

  /** A loan just created for day `d` is listed under `d`, and under no other
      day, in the returns report. */
  lemma CreatedLoanScheduledOnItsDay(loans: seq<Loan>, id: string, bookId: string, readerId: string,
                                     now: Instant, d: Date, other: Date)
    requires ValidDate(d) && ValidDate(other) && other != d
    ensures NewLoan(id, bookId, readerId, now, d) in ScheduledReturns(loans + [NewLoan(id, bookId, readerId, now, d)], FormatDate(d))
    ensures NewLoan(id, bookId, readerId, now, d) !in ScheduledReturns(loans + [NewLoan(id, bookId, readerId, now, d)], FormatDate(other))
  {
    var l := NewLoan(id, bookId, readerId, now, d);
    ScheduledReturnsOn(loans + [l], d);
    ScheduledReturnsOn(loans + [l], other);
  }

  /** The "ATRASADO" badge of a returns row: the due instant is strictly
      before now (not before the start of today). */
  function ReturnRowOverdue(loan: Loan, now: Instant): (overdue: bool)
    ensures loan.dueDate % MsPerDay == 12 * MsPerHour && LocalDate(now) == LocalDate(loan.dueDate) ==>
      (overdue <==> now % MsPerDay > 12 * MsPerHour)
  {
    SameDateIffSameDay(now, loan.dueDate);
    loan.dueDate < now
  }

  /** JavaScript property names every `{}` inherits from `Object.prototype`. */
  const InheritedKeys: set<string> := {"constructor", "hasOwnProperty", "isPrototypeOf",
    "propertyIsEnumerable", "toLocaleString", "toString", "valueOf", "__proto__",
    "__defineGetter__", "__defineSetter__", "__lookupGetter__", "__lookupSetter__"}

  /** The genre reduce as the code runs it on a plain object: `acc[genre]`
      also finds the inherited properties, so for a genre named like one of
      them the group is never created and `acc[genre].push` throws (`None`). */
  function GenreDataAsWritten(books: seq<Book>): (r: Option<map<string, seq<Book>>>)
    ensures r.Some? ==> forall g :: g in r.value ==> g !in InheritedKeys
  {
    if books == [] then Some(map[])
    else
      match GenreDataAsWritten(books[..|books| - 1])
      case None => None
      case Some(acc) =>
        var g := GenreKey(books[|books| - 1]);
        if g in acc then Some(acc[g := acc[g] + [books[|books| - 1]]])
        else if g in InheritedKeys then None
        else Some(acc[g := [books[|books| - 1]]])
  }

  /** A single book whose genre is "toString" makes the as-written reduce
      throw, while `GroupByGenre` groups it like any other. */
  lemma GenreDataThrowsOnInheritedName(b: Book)
    requires b.genre == "toString"
    ensures GenreDataAsWritten([b]) == None
    ensures GenreOrder([b]) == ["toString"]
  {
    assert [b][..0] == [];
  }

  /** The reduce as written throws exactly when some book's group key is an
      inherited property name; otherwise it builds the same groups as
      `GroupsOf`, on which `GroupByGenre` is proved. */
  lemma {:induction false} AsWrittenAgrees(books: seq<Book>)
    ensures (exists b :: b in books && GenreKey(b) in InheritedKeys) ==> GenreDataAsWritten(books) == None
    ensures (forall b :: b in books ==> GenreKey(b) !in InheritedKeys) ==>
      GenreDataAsWritten(books) == Some(GroupsOf(books))
  {
    if books != [] {
      var init, book := books[..|books| - 1], books[|books| - 1];
      AsWrittenAgrees(init);
      assert books == init + [book];
      assert forall b :: b in books <==> b in init || b == book;
      if forall b :: b in init ==> GenreKey(b) !in InheritedKeys {
        var acc, g := GroupsOf(init), GenreKey(book);
        assert [] + [book] == [book];
        if g !in acc && g in InheritedKeys {
          assert GenreDataAsWritten(books) == None;
        }
      }
    }
  }
}
