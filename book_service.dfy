/** The catalog service: book lifecycle operations run against the book
    store. The pure functions below say what each operation does to the
    store's contents; the class BookService performs the operations on a
    BookRepository and is proved to follow them. */
module Catalog {
  import opened Wrappers
  import opened Books
  import opened Store

  /** The one exception the service itself throws. */
  datatype CatalogError = BookAlreadyExists(isbn: string)

  // ---------------------------------------------------------------------
  // What each operation does to the store's contents. The store persists a
  // record it may complete with system fields, so adding and editing are
  // relations between the contents before, the records handed to `save`
  // (`sent`), the result, and the contents after.

  /** viewBookDetails: the stored book, or None (Java's null) when there is none. */
  function Lookup(c: Catalog, isbn: string): (found: Option<Book>)
    ensures found.Some? <==> isbn in c
    ensures found.Some? ==> found.value == c[isbn]
  {
    if isbn in c then Some(c[isbn]) else None
  }

  /** addBookToCatalog takes `c` to `after` with result `r`: a taken ISBN
      is refused, nothing is saved and nothing changes; otherwise `book`
      itself is handed to `save`, and the persisted record, which carries
      the client's fields of `book`, is returned and stored under the
      book's ISBN. */
  predicate Adds(c: Catalog, book: Book, sent: seq<Book>, r: Result<Book, CatalogError>, after: Catalog)
    ensures Adds(c, book, sent, r, after) ==> (r.Err? <==> book.isbn in c)
    ensures Adds(c, book, sent, r, after) ==> (sent == [] <==> r.Err?)
  {
    if book.isbn in c then r == Err(BookAlreadyExists(book.isbn)) && after == c && sent == []
    else sent == [book] && r.Ok? && SameClientFields(r.value, book) && after == c[book.isbn := r.value]
  }

  /** removeBookFromCatalog: delete whatever is stored under `isbn`. */
  function Remove(c: Catalog, isbn: string): (after: Catalog)
    ensures after.Keys == c.Keys - {isbn}
    ensures forall k | k in after :: after[k] == c[k]
  {
    c - {isbn}
  }

  /** The record editBookDetails hands to the store in place of `existing`:
      identity, audit data and version of `existing`, content of `patch`. */
  function Merge(existing: Book, patch: Book): (merged: Book)
    ensures SameSystemFields(merged, existing)
    ensures SameContent(merged, patch)
  {
    Book(existing.id, existing.isbn, patch.title, patch.author, patch.price, patch.publisher,
         existing.createdDate, existing.lastModifiedDate, existing.createdBy,
         existing.lastModifiedBy, existing.version)
  }

  /** editBookDetails takes `c` to `after` with result `r`: for a book
      stored under `isbn`, its merge with `patch` is handed to `save`, and
      the persisted form of that merge replaces it; when there is none,
      `patch` is added as a new book, keyed by its own ISBN. */
  predicate Edits(c: Catalog, isbn: string, patch: Book, sent: seq<Book>, r: Result<Book, CatalogError>, after: Catalog)
    ensures Edits(c, isbn, patch, sent, r, after) && isbn in c ==>
      r.Ok? && SameContent(r.value, patch) && |sent| == 1 && SameSystemFields(sent[0], c[isbn])
  {
    if isbn in c then
      var merged := Merge(c[isbn], patch);
      sent == [merged] && r.Ok? && SameClientFields(r.value, merged) && after == c[merged.isbn := r.value]
    else Adds(c, patch, sent, r, after)
  }

  // ---------------------------------------------------------------------
  // The service

  class BookService {
    const bookRepository: BookRepository

    constructor (bookRepository: BookRepository)
      ensures this.bookRepository == bookRepository
    {
      this.bookRepository := bookRepository;
    }

    /** Every book in the catalog, each once; the store is not touched. */
    method ViewBookList() returns (books: seq<Book>)
      requires bookRepository.Valid()
      ensures Enumerates(books, bookRepository.books)
    {
      books := bookRepository.FindAll();
    }

    /** The book stored under `isbn`, or None when there is none; never fails. */
    method ViewBookDetails(isbn: string) returns (book: Option<Book>)
      ensures book == Lookup(bookRepository.books, isbn)
    {
      var b := bookRepository.FindByIsbn(isbn);
      if b.Some? {
        var aBook := b.value;
        return Some(aBook);
      }
      return None;
    }

    method AddBookToCatalog(book: Book) returns (r: Result<Book, CatalogError>)
      requires bookRepository.Valid()
      modifies bookRepository
      ensures bookRepository.Valid()
      ensures old(bookRepository.handed) <= bookRepository.handed
      ensures Adds(old(bookRepository.books), book,
                   bookRepository.handed[|old(bookRepository.handed)|..], r, bookRepository.books)
    {
      var present := bookRepository.ExistsByIsbn(book.isbn);
      if present {
        return Err(BookAlreadyExists(book.isbn));
      }
      var saved := bookRepository.Save(book);
      return Ok(saved);
    }

    method RemoveBookFromCatalog(isbn: string)
      requires bookRepository.Valid()
      modifies bookRepository
      ensures bookRepository.Valid()
      ensures bookRepository.books == Remove(old(bookRepository.books), isbn)
      ensures bookRepository.handed == old(bookRepository.handed)
    {
      bookRepository.DeleteByIsbn(isbn);
    }

    method EditBookDetails(isbn: string, book: Book) returns (r: Result<Book, CatalogError>)
      requires bookRepository.Valid()
      modifies bookRepository
      ensures bookRepository.Valid()
      ensures old(bookRepository.handed) <= bookRepository.handed
      ensures Edits(old(bookRepository.books), isbn, book,
                    bookRepository.handed[|old(bookRepository.handed)|..], r, bookRepository.books)
      ensures isbn in old(bookRepository.books) ==>
        r.Ok? && r.value.isbn == isbn && SameContent(r.value, book) &&
        bookRepository.handed == old(bookRepository.handed) + [Merge(old(bookRepository.books)[isbn], book)]
    {
      var existing := bookRepository.FindByIsbn(isbn);
      match existing {
        case Some(existingBook) =>
          var bookToUpdate := Merge(existingBook, book);
          var saved := bookRepository.Save(bookToUpdate);
          r := Ok(saved);
        case None =>
          r := AddBookToCatalog(book);
      }
    }
  }

  // ---------------------------------------------------------------------
  // Properties of the operations

  /** Adding a book whose ISBN is taken fails, saves nothing and changes nothing. */
  lemma AddRejectsTakenIsbn(c: Catalog, book: Book, sent: seq<Book>, r: Result<Book, CatalogError>, after: Catalog)
    requires book.isbn in c
    ensures Adds(c, book, sent, r, after) <==> r == Err(BookAlreadyExists(book.isbn)) && after == c && sent == []
  {
  }

  /** Adding a book under a free ISBN hands that very book to `save`,
      returns the persisted record, stores it there, and changes no other
      entry. */
  lemma AddSavesUnderFreeIsbn(c: Catalog, book: Book, sent: seq<Book>, r: Result<Book, CatalogError>, after: Catalog)
    requires book.isbn !in c
    requires Adds(c, book, sent, r, after)
    ensures sent == [book]
    ensures r.Ok? && SameClientFields(r.value, book)
    ensures after.Keys == c.Keys + {book.isbn}
    ensures after[book.isbn] == r.value
    ensures forall k | k in c :: after[k] == c[k]
  {
  }

  /** Once an add has succeeded, any later add with the same ISBN fails
      without saving anything. */
  lemma SecondAddFails(
    c: Catalog, first: Book, s1: seq<Book>, r1: Result<Book, CatalogError>, c1: Catalog,
    second: Book, s2: seq<Book>, r2: Result<Book, CatalogError>, c2: Catalog)
    requires Adds(c, first, s1, r1, c1) && r1.Ok?
    requires second.isbn == first.isbn
    requires Adds(c1, second, s2, r2, c2)
    ensures r2 == Err(BookAlreadyExists(first.isbn)) && c2 == c1 && s2 == []
  {
  }

  /** Round trip: after a successful add, viewBookDetails returns the
      record the add returned, which carries the client's fields of the book. */
  lemma AddThenView(c: Catalog, book: Book, sent: seq<Book>, r: Result<Book, CatalogError>, after: Catalog)
    requires Adds(c, book, sent, r, after) && r.Ok?
    ensures Lookup(after, book.isbn) == Some(r.value)
    ensures SameClientFields(r.value, book)
  {
  }

  /** Removing leaves nothing under `isbn`, keeps every other entry, and a
      second removal changes nothing. */
  lemma RemoveIsIdempotent(c: Catalog, isbn: string)
    ensures Lookup(Remove(c, isbn), isbn) == None
    ensures forall k | k != isbn :: Lookup(Remove(c, isbn), k) == Lookup(c, k)
    ensures Remove(Remove(c, isbn), isbn) == Remove(c, isbn)
  {
  }

  /** The merge keeps id, isbn, both dates, both audit names and version of
      the stored record and takes title, author, price and publisher from
      the patch, whatever the patch's own system fields are. */
  lemma MergeKeepsSystemFields(existing: Book, patch: Book)
    ensures SameSystemFields(Merge(existing, patch), existing)
    ensures SameContent(Merge(existing, patch), patch)
    ensures forall other: Book | SameContent(other, patch) :: Merge(existing, other) == Merge(existing, patch)
  {
  }

  /** Editing a stored book hands exactly the merged record to `save` and
      replaces the stored book, under the same ISBN, by the persisted form
      of that record. */
  lemma EditReplacesStoredBook(c: Catalog, isbn: string, patch: Book, sent: seq<Book>, r: Result<Book, CatalogError>, after: Catalog)
    requires KeyedByIsbn(c)
    requires isbn in c
    requires Edits(c, isbn, patch, sent, r, after)
    ensures sent == [Merge(c[isbn], patch)]
    ensures SameSystemFields(sent[0], c[isbn]) && SameContent(sent[0], patch)
    ensures r.Ok? && SameClientFields(r.value, Merge(c[isbn], patch))
    ensures r.value.isbn == isbn && SameContent(r.value, patch)
    ensures after == c[isbn := r.value]
    ensures after.Keys == c.Keys
  {
  }

  /** With nothing stored under `isbn`, editing is exactly adding the patch. */
  lemma EditFallsBackToAdd(c: Catalog, isbn: string, patch: Book, sent: seq<Book>, r: Result<Book, CatalogError>, after: Catalog)
    requires isbn !in c
    ensures Edits(c, isbn, patch, sent, r, after) <==> Adds(c, patch, sent, r, after)
  {
  }

  /** The fallback hands the patch itself to `save` and stores the persisted
      patch under the patch's own ISBN; when that differs from the ISBN of
      the request, nothing lands under the latter. */
  lemma EditFallbackKeyedByPatchIsbn(c: Catalog, isbn: string, patch: Book, sent: seq<Book>, r: Result<Book, CatalogError>, after: Catalog)
    requires isbn !in c
    requires patch.isbn !in c
    requires Edits(c, isbn, patch, sent, r, after)
    ensures sent == [patch]
    ensures r.Ok? && SameClientFields(r.value, patch)
    ensures Lookup(after, patch.isbn) == Some(r.value)
    ensures patch.isbn != isbn ==> Lookup(after, isbn) == None
  {
  }

  /** Every operation keeps at most one book per ISBN, each under its own ISBN. */
  lemma OperationsKeepKeying(c: Catalog, isbn: string, book: Book, sent: seq<Book>, r: Result<Book, CatalogError>, after: Catalog)
    requires KeyedByIsbn(c)
    ensures Adds(c, book, sent, r, after) ==> KeyedByIsbn(after)
    ensures KeyedByIsbn(Remove(c, isbn))
    ensures Edits(c, isbn, book, sent, r, after) ==> KeyedByIsbn(after)
  {
  }
}
