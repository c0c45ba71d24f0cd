/** The book store the catalog service runs against, keyed by ISBN. */
module Store {
  import opened Wrappers
  import opened Books

  class BookRepository {
    /** What is stored, by ISBN. */
    var books: Catalog
    /** Every record handed to `save`, oldest first: the specification's
        view of what the service asked the persistence layer to write. */
    ghost var handed: seq<Book>

    ghost predicate Valid()
      reads this
    {
      KeyedByIsbn(books)
    }

    constructor ()
      ensures Valid() && books == map[] && handed == []
    {
      books := map[];
      handed := [];
    }

    /** All stored books, each once, in an unspecified order. */
    method FindAll() returns (all: seq<Book>)
      requires Valid()
      ensures Enumerates(all, books)
    {
      all := [];
      var pending := books.Keys;
      while pending != {}
        invariant pending <= books.Keys
        invariant forall i | 0 <= i < |all| :: all[i].isbn in books && all[i].isbn !in pending && books[all[i].isbn] == all[i]
        invariant forall i, j | 0 <= i < j < |all| :: all[i].isbn != all[j].isbn
        invariant forall k | k in books && k !in pending :: exists i | 0 <= i < |all| :: all[i].isbn == k
        decreases pending
      {
        var k :| k in pending;
        ghost var listed := all;
        all := all + [books[k]];
        assert all[|all| - 1].isbn == k;
        assert forall i | 0 <= i < |listed| :: all[i] == listed[i];
        pending := pending - {k};
      }
    }

    /** The book stored under `isbn`, if any. */
    method FindByIsbn(isbn: string) returns (found: Option<Book>)
      ensures found.Some? <==> isbn in books
      ensures found.Some? ==> found.value == books[isbn]
    {
      if isbn in books {
        found := Some(books[isbn]);
      } else {
        found := None;
      }
    }

    /** Whether a book is stored under `isbn`. */
    method ExistsByIsbn(isbn: string) returns (present: bool)
      ensures present <==> isbn in books
    {
      present := isbn in books;
    }

    /** Persists `book` under its own ISBN, replacing what was there, and
        returns the persisted record. The persistence layer fills in the
        id, the version and the audit dates and names as it sees fit, so
        all that is promised of the persisted record is that it carries
        the client's fields of `book`. */
    method Save(book: Book) returns (saved: Book)
      requires Valid()
      modifies this
      ensures Valid()
      ensures SameClientFields(saved, book)
      ensures books == old(books)[book.isbn := saved]
      ensures handed == old(handed) + [book]
    {
      assert SameClientFields(book, book);
      var persisted :| SameClientFields(persisted, book);
      assert SameClientFields(persisted, book);
      books := books[book.isbn := persisted];
      saved := persisted;
      handed := handed + [book];
    }

    /** Removes the book stored under `isbn`; nothing happens when there is none. */
    method DeleteByIsbn(isbn: string)
      requires Valid()
      modifies this
      ensures Valid()
      ensures books == old(books) - {isbn}
      ensures handed == old(handed)
    {
      books := books - {isbn};
    }
  }
}
