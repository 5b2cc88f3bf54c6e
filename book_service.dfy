/**
  The catalog service: reading, creating, updating and deleting books, with
  the rules that the available copies may not exceed the total and that an
  ISBN belongs to one book.
 */
module BookService {
  import opened Wrappers
  import opened JavaText
  import opened Rows
  import opened SqlStore
  import opened Ledger

  /** The domain book the service hands out; a column read as null stays null. */
  datatype Book = Book(
    id: Option<int>,
    title: Option<string>,
    author: Option<string>,
    isbn: Option<string>,
    totalCopies: int,
    availableCopies: int)

  /** What a caller asks to store. */
  datatype BookInput = BookInput(
    title: string,
    author: string,
    isbn: string,
    totalCopies: int32,
    availableCopies: int32)

  /** The columns `select id, title, author, isbn, total_copies, available_copies`
      returns for a stored book. */
  function BookColumns(id: nat, b: BookRow): Row {
    map["id" := Num(id), "title" := Text(b.title), "author" := Text(b.author),
        "isbn" := Text(b.isbn), "total_copies" := Num(b.totalCopies),
        "available_copies" := Num(b.availableCopies)]
  }

  /** The book a stored row stands for. */
  function BookOf(id: nat, b: BookRow): Book {
    Book(Some(id), Some(b.title), Some(b.author), Some(b.isbn), b.totalCopies, b.availableCopies)
  }

  /** mapBook: a column that is not a number where one is expected fails the
      whole mapping. */
  function MapBook(row: Row): (b: Conversion<Book>)
    ensures b.NumberFormatFailure? <==>
      || ToLong(row, "id").NumberFormatFailure?
      || ToInt(row, "total_copies").NumberFormatFailure?
      || ToInt(row, "available_copies").NumberFormatFailure?
    ensures b.Converted? ==> b.value.title == ToText(row, "title") && b.value.isbn == ToText(row, "isbn")
  {
    match ToLong(row, "id")
    case NumberFormatFailure => NumberFormatFailure
    case Converted(id) =>
      match ToInt(row, "total_copies")
      case NumberFormatFailure => NumberFormatFailure
      case Converted(total) =>
        match ToInt(row, "available_copies")
        case NumberFormatFailure => NumberFormatFailure
        case Converted(available) =>
          Converted(Book(id, ToText(row, "title"), ToText(row, "author"), ToText(row, "isbn"),
                         total, available))
  }

  /** Reading a stored book back through mapBook gives the book it stands for. */
  lemma StoredBookMapsBack(id: nat, b: BookRow)
    requires id < LongHalf
    ensures MapBook(BookColumns(id, b)) == Converted(BookOf(id, b))
  {
    var row := BookColumns(id, b);
    assert GetValue(row, "id") == Num(id);
    assert GetValue(row, "total_copies") == Num(b.totalCopies);
    assert GetValue(row, "available_copies") == Num(b.availableCopies);
  }

  /** A result without copy-count columns reads both counts as 0. */
  lemma MissingCopiesReadAsZero(row: Row)
    requires LowerCaseColumns(row)
    requires "total_copies" !in row && "available_copies" !in row
    requires ToLong(row, "id").Converted?
    ensures MapBook(row).Converted?
    ensures MapBook(row).value.totalCopies == 0 && MapBook(row).value.availableCopies == 0
  {
    assert ToLower("total_copies") == "total_copies";
    assert ToLower("available_copies") == "available_copies";
    GetValueOnLowerCaseColumns(row, "total_copies");
    GetValueOnLowerCaseColumns(row, "available_copies");
  }

  /** get: the book under that id, or NotFound. */
  function Get(t: Tables, id: nat): (r: Result<Book>)
    ensures r.Ok? <==> id in t.books
    ensures r.Ok? ==> r.value.id == Some(id)
    ensures r.Err? ==> r.failure == NotFound(BookNotFound)
  {
    if id in t.books then Ok(BookOf(id, t.books[id])) else Err(NotFound(BookNotFound))
  }

  /** What get returns is what mapBook reads from the selected row. */
  lemma GetReadsStoredRow(t: Tables, id: nat)
    requires id in t.books && id < LongHalf
    ensures MapBook(BookColumns(id, t.books[id])) == Converted(Get(t, id).value)
  {
    StoredBookMapsBack(id, t.books[id]);
  }

  predicate IsbnTaken(t: Tables, isbn: string) {
    exists id :: id in t.books && t.books[id].isbn == isbn
  }

  /** No two books share an ISBN. */
  predicate IsbnsUnique(books: map<nat, BookRow>) {
    forall i, j :: i in books && j in books && books[i].isbn == books[j].isbn ==> i == j
  }

  /** The book with the ISBN that the lookup by ISBN reaches first. */
  predicate FirstWithIsbn(t: Tables, isbn: string, k: nat) {
    k in t.books && t.books[k].isbn == isbn
    && forall j :: j in t.books && j < k ==> t.books[j].isbn != isbn
  }

  /** existsByIsbn */
  method ExistsByIsbn(store: Store, isbn: string) returns (taken: bool)
    requires store.Valid()
    ensures taken == IsbnTaken(store.State(), isbn)
  {
    var found := FirstMatch(store.books, store.bookSeq, (b: BookRow) => b.isbn == isbn);
    taken := found.Some?;
  }

  /** getByIsbn */
  method GetByIsbn(store: Store, isbn: string) returns (r: Result<Book>)
    requires store.Valid()
    ensures r.Ok? <==> IsbnTaken(store.State(), isbn)
    ensures r.Ok? ==> exists k :: FirstWithIsbn(store.State(), isbn, k) && r.value == BookOf(k, store.books[k])
    ensures r.Err? ==> r.failure == NotFound(BookNotFoundAfterInsert)
  {
    var found := FirstMatch(store.books, store.bookSeq, (b: BookRow) => b.isbn == isbn);
    if found.None? {
      return Err(NotFound(BookNotFoundAfterInsert));
    }
    var k := found.value;
    assert FirstWithIsbn(store.State(), isbn, k);
    r := Ok(BookOf(k, store.books[k]));
  }

  /** create: the copy rule, then ISBN uniqueness, then the insert; the book
      returned is the one looked up by its ISBN, which is the new one. */
  method Create(store: Store, input: BookInput) returns (r: Result<Book>)
    requires store.Valid()
    modifies store
    ensures store.Valid()
    ensures input.availableCopies > input.totalCopies ==>
      r == Err(BusinessRule(CopiesExceedTotal)) && store.State() == old(store.State())
    ensures input.availableCopies <= input.totalCopies && IsbnTaken(old(store.State()), input.isbn) ==>
      r == Err(BusinessRule(IsbnExists)) && store.State() == old(store.State())
    ensures input.availableCopies <= input.totalCopies && !IsbnTaken(old(store.State()), input.isbn) ==>
      && store.State() == InsertedBook(old(store.State()), input.title, input.author, input.isbn,
                                       input.totalCopies, input.availableCopies)
      && r == Ok(BookOf(old(store.bookSeq), store.books[old(store.bookSeq)]))
    ensures IsbnsUnique(old(store.books)) ==> IsbnsUnique(store.books)
    ensures CopiesWithinTotal(old(store.books)) && input.availableCopies >= 0 ==> CopiesWithinTotal(store.books)
  {
    if input.availableCopies > input.totalCopies {
      return Err(BusinessRule(CopiesExceedTotal));
    }
    var taken := ExistsByIsbn(store, input.isbn);
    if taken {
      return Err(BusinessRule(IsbnExists));
    }
    var id := store.InsertBook(input.title, input.author, input.isbn, input.totalCopies, input.availableCopies);
    r := GetByIsbn(store, input.isbn);
    assert FirstWithIsbn(store.State(), input.isbn, id);
  }

  /** The row write of update, on its own: NotFound when no row has the id. */
  method ApplyUpdate(store: Store, id: nat, input: BookInput) returns (r: Result<Book>)
    requires store.Valid()
    modifies store
    ensures store.Valid()
    ensures store.State() == UpdatedBook(old(store.State()), id, input.title, input.author, input.isbn,
                                         input.totalCopies, input.availableCopies)
    ensures id !in old(store.books) ==> r == Err(NotFound(BookNotFound))
    ensures id in old(store.books) ==> r == Ok(BookOf(id, store.books[id]))
  {
    var affected := store.UpdateBook(id, input.title, input.author, input.isbn,
                                     input.totalCopies, input.availableCopies);
    if affected <= 0 {
      return Err(NotFound(BookNotFound));
    }
    r := Get(store.State(), id);
  }

  /** update: the copy rule, then NotFound, then the ISBN rule (keeping the
      book's own ISBN is allowed), then the write. */
  method Update(store: Store, id: nat, input: BookInput) returns (r: Result<Book>)
    requires store.Valid()
    modifies store
    ensures store.Valid()
    ensures input.availableCopies > input.totalCopies ==>
      r == Err(BusinessRule(CopiesExceedTotal)) && store.State() == old(store.State())
    ensures input.availableCopies <= input.totalCopies && id !in old(store.books) ==>
      r == Err(NotFound(BookNotFound)) && store.State() == old(store.State())
    ensures input.availableCopies <= input.totalCopies && id in old(store.books)
            && old(store.books)[id].isbn != input.isbn && IsbnTaken(old(store.State()), input.isbn) ==>
      r == Err(BusinessRule(IsbnExists)) && store.State() == old(store.State())
    ensures input.availableCopies <= input.totalCopies && id in old(store.books)
            && (old(store.books)[id].isbn == input.isbn || !IsbnTaken(old(store.State()), input.isbn)) ==>
      && store.State() == UpdatedBook(old(store.State()), id, input.title, input.author, input.isbn,
                                      input.totalCopies, input.availableCopies)
      && r == Ok(BookOf(id, store.books[id]))
    ensures IsbnsUnique(old(store.books)) ==> IsbnsUnique(store.books)
    ensures CopiesWithinTotal(old(store.books)) && input.availableCopies >= 0 ==> CopiesWithinTotal(store.books)
  {
    if input.availableCopies > input.totalCopies {
      return Err(BusinessRule(CopiesExceedTotal));
    }
    var existing := Get(store.State(), id);
    if existing.Err? {
      return Err(existing.failure);
    }
    if existing.value.isbn != Some(input.isbn) {
      var taken := ExistsByIsbn(store, input.isbn);
      if taken {
        return Err(BusinessRule(IsbnExists));
      }
    }
    r := ApplyUpdate(store, id, input);
  }

  /** delete: NotFound when no row was removed. */
  method Delete(store: Store, id: nat) returns (r: Result<()>)
    requires store.Valid()
    modifies store
    ensures store.Valid()
    ensures store.State() == DeletedBook(old(store.State()), id)
    ensures r == if id in old(store.books) then Ok(()) else Err(NotFound(BookNotFound))
  {
    var affected := store.DeleteBook(id);
    if affected <= 0 {
      return Err(NotFound(BookNotFound));
    }
    return Ok(());
  }
}
