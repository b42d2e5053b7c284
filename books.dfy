/** The books screen: the search filter over the collection, and the
    "new book" form whose draft is submitted into the library or enriched
    with a suggested genre and description. */
module BooksManager {
  import opened Types
  import opened Seqs
  import opened Text
  import opened Store

  const EmptyBookDraft := BookDraft("", "", "", "", "")

  /** The lower-cased search term occurs in the lower-cased title or author. */
  predicate MatchesBook(b: Book, term: string) {
    Includes(Lower(b.title), Lower(term)) || Includes(Lower(b.author), Lower(term))
  }

  /** `filteredBooks`: the books that match the search term, in stored order. */
  function FilterBooks(books: seq<Book>, term: string): (r: seq<Book>)
    ensures forall b :: b in r <==> b in books && MatchesBook(b, term)
    ensures term == "" ==> r == books
  {
    var r := Filter(books, b => MatchesBook(b, term));
    FilterMembers(books, b => MatchesBook(b, term));
    if term == "" then
      assert Lower(term) == "";
      forall b ensures MatchesBook(b, term) {
        IncludesEmpty(Lower(b.title));
      }
      FilterKeepsAll(books, b => MatchesBook(b, term));
      r
    else
      r
  }

  /** The draft after the service's answer is spread into it: only the
      genre and the description change. */
  function WithDetails(d: BookDraft, details: BookDetails): (r: BookDraft)
    ensures r.title == d.title && r.author == d.author && r.isbn == d.isbn
    ensures r.genre == details.genre && r.description == details.description
  {
    d.(genre := details.genre, description := details.description)
  }

  /** A form submitted while the service is still answering is cleared, and
      the late answer then lands in the cleared form: the next draft starts
      with that genre and description instead of empty. */
  lemma LateAnswerFillsClearedForm(details: BookDetails)
    requires details.genre != "" || details.description != ""
    ensures WithDetails(EmptyBookDraft, details) != EmptyBookDraft
    ensures WithDetails(EmptyBookDraft, details) == BookDraft("", "", "", details.genre, details.description)
  {
  }

  /** An edit made to the draft while the service is answering survives the
      answer, except an edit of the genre or the description. */
  lemma EditDuringWaitKept(d: BookDraft, edited: BookDraft, details: BookDetails)
    ensures WithDetails(edited, details).title == edited.title
    ensures WithDetails(edited, details).author == edited.author
    ensures WithDetails(edited, details).isbn == edited.isbn
    ensures edited.title != d.title ==> WithDetails(edited, details) != WithDetails(d, details)
  {
  }

  /** The state of the "new book" form: the draft and whether a request to
      the text-generation service is outstanding (`isAiLoading`). */
  class BookForm {
    var draft: BookDraft
    var aiLoading: bool

    constructor ()
      ensures draft == EmptyBookDraft && !aiLoading
    {
      draft := EmptyBookDraft;
      aiLoading := false;
    }

    /** `handleAddBook`: appends the draft as an available book under a
        fresh identifier, then clears the form. It is not held back while a
        service request is outstanding. */
    method Submit(lib: Library, id: string)
      requires lib.Valid() && FreshBookId(lib.books, lib.loans, id)
      modifies this, lib
      ensures lib.Valid()
      ensures lib.books == old(lib.books) + [NewBook(old(draft), id)]
      ensures lib.readers == old(lib.readers) && lib.loans == old(lib.loans)
      ensures draft == EmptyBookDraft && aiLoading == old(aiLoading)
    {
      lib.AddBook(draft, id);
      draft := EmptyBookDraft;
    }

    /** `handleMagicFill` up to its `await`: nothing happens without a title
        and an author; otherwise the form starts waiting and the title and
        author are sent to the service. The button is disabled while a
        request is outstanding. */
    method RequestDetails() returns (request: Option<(string, string)>)
      requires !aiLoading
      modifies this
      ensures draft == old(draft)
      ensures draft.title == "" || draft.author == "" ==> request == None && !aiLoading
      ensures draft.title != "" && draft.author != "" ==> request == Some((draft.title, draft.author)) && aiLoading
    {
      if draft.title == "" || draft.author == "" {
        return None;
      }
      aiLoading := true;
      request := Some((draft.title, draft.author));
    }

    /** `handleMagicFill` after its `await`: the answer is spread into the
        draft as it is when the answer arrives, and the form stops waiting. */
    method ApplyDetails(details: BookDetails)
      modifies this
      ensures draft == WithDetails(old(draft), details) && !aiLoading
    {
      draft := WithDetails(draft, details);
      aiLoading := false;
    }
  }

  /** A submit while the service is working: the book is added with what was
      typed, and the late answer then lands in the cleared form, which is left
      holding only the answer's genre and description. */
  method SubmitDuringRequest(form: BookForm, lib: Library, id: string, details: BookDetails)
    returns (added: Book)
    requires !form.aiLoading && form.draft.title != "" && form.draft.author != ""
    requires lib.Valid() && FreshBookId(lib.books, lib.loans, id)
    modifies form, lib
    ensures added == NewBook(old(form.draft), id) && lib.books == old(lib.books) + [added]
    ensures form.draft == BookDraft("", "", "", details.genre, details.description) && !form.aiLoading
  {
    var request := form.RequestDetails();
    assert request.Some? && form.aiLoading;
    added := NewBook(form.draft, id);
    form.Submit(lib, id);
    form.ApplyDetails(details);
    assert form.draft == BookDraft("", "", "", details.genre, details.description);
  }
}
