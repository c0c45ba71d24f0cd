/** The Book aggregate: a record keyed by its ISBN, with client-supplied
    fields and fields that the persistence layer owns. */
module Books {
  import opened Wrappers

  /** Prices are only copied between records, never computed on. */
  type Price = real

  /** A point in time (an Instant), as seconds since the epoch. */
  type Timestamp = int

  /** The Book record. `id`, the two dates, the two audit names and
      `version` belong to the persistence layer; `isbn`, `title`, `author`,
      `price` and `publisher` come from the client. Nullable Java fields
      are `Option`s. */
  datatype Book = Book(
    id: Option<int>,
    isbn: string,
    title: string,
    author: string,
    price: Price,
    publisher: Option<string>,
    createdDate: Option<Timestamp>,
    lastModifiedDate: Option<Timestamp>,
    createdBy: Option<string>,
    lastModifiedBy: Option<string>,
    version: int)

  /** `a` carries the title, author, price and publisher of `b`. */
  predicate SameContent(a: Book, b: Book) {
    a.title == b.title && a.author == b.author && a.price == b.price && a.publisher == b.publisher
  }

  /** `a` and `b` agree on the fields a client sends in a request body. */
  predicate SameClientFields(a: Book, b: Book) {
    a.isbn == b.isbn && SameContent(a, b)
  }

  /** `a` and `b` agree on identity, audit data and version. */
  predicate SameSystemFields(a: Book, b: Book) {
    a.id == b.id && a.isbn == b.isbn &&
    a.createdDate == b.createdDate && a.lastModifiedDate == b.lastModifiedDate &&
    a.createdBy == b.createdBy && a.lastModifiedBy == b.lastModifiedBy &&
    a.version == b.version
  }

  /** The contents of the book store: at most one book per ISBN. */
  type Catalog = map<string, Book>

  /** Every stored book sits under its own ISBN. */
  predicate KeyedByIsbn(c: Catalog) {
    forall k | k in c :: c[k].isbn == k
  }

  /** `all` lists the books of `c`, each exactly once, in some order. */
  predicate Enumerates(all: seq<Book>, c: Catalog) {
    (forall i | 0 <= i < |all| :: all[i].isbn in c && c[all[i].isbn] == all[i]) &&
    (forall i, j | 0 <= i < j < |all| :: all[i].isbn != all[j].isbn) &&
    (forall k | k in c :: exists i | 0 <= i < |all| :: all[i].isbn == k)
  }
}
