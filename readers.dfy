/** The readers screen: the search filter over the collection and the
    "new reader" form. */
module ReadersManager {
  import opened Types
  import opened Seqs
  import opened Text
  import opened Store

  const EmptyReaderDraft := ReaderDraft("", "", "", "", "", "")

  /** The search term, ignoring case, occurs in the name or in the sector;
      a reader without a sector can match only by name. */
  predicate MatchesReader(r: Reader, term: string) {
    Includes(Lower(r.name), Lower(term)) ||
    (r.sector.Some? && Includes(Lower(r.sector.value), Lower(term)))
  }

  /** `filteredReaders`: the readers that match the search term, in stored order. */
  function FilterReaders(readers: seq<Reader>, term: string): (r: seq<Reader>)
    ensures forall x :: x in r <==> x in readers && MatchesReader(x, term)
    ensures forall x :: x in readers && x.sector.None? ==>
      (x in r <==> Includes(Lower(x.name), Lower(term)))
    ensures term == "" ==> r == readers
  {
    var r := Filter(readers, x => MatchesReader(x, term));
    FilterMembers(readers, x => MatchesReader(x, term));
    if term == "" then
      assert Lower(term) == "";
      forall x ensures MatchesReader(x, term) {
        IncludesEmpty(Lower(x.name));
      }
      FilterKeepsAll(readers, x => MatchesReader(x, term));
      r
    else
      r
  }

  /** The state of the "new reader" form. */
  class ReaderForm {
    var draft: ReaderDraft

    constructor ()
      ensures draft == EmptyReaderDraft
    {
      draft := EmptyReaderDraft;
    }

    /** `handleAdd`: appends the draft as a reader registered at `now` under
        a fresh identifier, then clears the form. */
    method Submit(lib: Library, id: string, now: Instant)
      requires lib.Valid() && FreshReaderId(lib.readers, id)
      modifies this, lib
      ensures lib.Valid()
      ensures lib.readers == old(lib.readers) + [NewReader(old(draft), id, now)]
      ensures lib.books == old(lib.books) && lib.loans == old(lib.loans)
      ensures draft == EmptyReaderDraft
    {
      lib.AddReader(draft, id, now);
      draft := EmptyReaderDraft;
    }
  }
}
