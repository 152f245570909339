/** The book taxonomy of the Quantum Book Store: one catalogue record shared by
    three closed variants. Prices are integer cents; years, stock and quantities
    are unbounded integers. */
module Books {

  /** One catalogue entry. Every variant carries the base record (ISBN, title,
      publication year, unit price, author); a paper book adds a mutable stock
      count, an e-book an immutable file type, a showcase book nothing. */
  datatype Book =
    | PaperBook(isbn: string, title: string, year: int, price: int, author: string, stock: int)
    | EBook(isbn: string, title: string, year: int, price: int, author: string, fileType: string)
    | ShowcaseBook(isbn: string, title: string, year: int, price: int, author: string)
  {
    /** Every book is for sale except a showcase copy, which overrides the base answer. */
    predicate IsForSale()
    {
      match this
      case ShowcaseBook(_, _, _, _, _) => false
      case _ => true
    }

    /** Only a paper book has a stock to run out of; every other variant always
        reports enough stock, whatever is asked for. */
    predicate HasStock(quantity: int)
    {
      match this
      case PaperBook(_, _, _, _, _, stock) => stock >= quantity
      case _ => true
    }

    /** Takes `quantity` copies out of a paper book's stock, with no floor check;
        a no-op on the other variants. The result is the same book with less stock:
        it has stock for `k` copies exactly when this one had stock for
        `k + quantity`. */
    function ReduceStock(quantity: int): (r: Book)
      ensures SameCatalogueEntry(r, this)
      ensures forall k :: r.HasStock(k) <==> HasStock(k + quantity)
    {
      match this
      case PaperBook(_, _, _, _, _, stock) => this.(stock := stock - quantity)
      case _ => this
    }

    /** What the inventory listing shows of this book: the base record, then one
        line that depends on the variant. */
    function Describe(): (d: Description)
      ensures d.title == title && d.author == author && d.year == year
      ensures d.price == price && d.isbn == isbn
      ensures PaperBook? ==> d.detail == StockLine(stock)
      ensures EBook? ==> d.detail == FileTypeLine(fileType)
      ensures d.detail == NotForSaleLine <==> !IsForSale()
    {
      var detail :=
        match this
        case PaperBook(_, _, _, _, _, stock) => StockLine(stock)
        case EBook(_, _, _, _, _, fileType) => FileTypeLine(fileType)
        case ShowcaseBook(_, _, _, _, _) => NotForSaleLine;
      Description(title, author, year, price, isbn, detail)
    }
  }

  /** Two books are the same catalogue entry when they agree on the variant and
      on every field but the stock. */
  predicate SameCatalogueEntry(a: Book, b: Book)
  {
    a.isbn == b.isbn && a.title == b.title && a.year == b.year &&
    a.price == b.price && a.author == b.author &&
    a.PaperBook? == b.PaperBook? && a.EBook? == b.EBook? &&
    (a.EBook? ==> a.fileType == b.fileType)
  }

  /** The variant-specific line of a listing entry. */
  datatype Detail = StockLine(stock: int) | FileTypeLine(fileType: string) | NotForSaleLine

  /** The fields one listing entry shows, in the order they are shown. */
  datatype Description = Description(title: string, author: string, year: int, price: int,
                                     isbn: string, detail: Detail)

  /** The sale and stock predicates, variant by variant. */
  lemma SaleAndStockByVariant(b: Book, quantity: int)
    ensures b.IsForSale() <==> !b.ShowcaseBook?
    ensures b.PaperBook? ==> (b.HasStock(quantity) <==> b.stock >= quantity)
    ensures !b.PaperBook? ==> b.HasStock(quantity) && b.ReduceStock(quantity) == b
  {
  }

  /** Reducing the stock of a paper book that has enough of it never drives the
      stock below zero. */
  lemma ReduceStockKeepsStockNonNegative(b: Book, quantity: int)
    requires b.PaperBook? && b.stock >= 0 && b.HasStock(quantity)
    ensures b.ReduceStock(quantity).PaperBook? && b.ReduceStock(quantity).stock >= 0
  {
  }

  /** The listing leaves nothing out: two books with the same listing entry are
      the same book. */
  lemma DescriptionDeterminesBook(a: Book, b: Book)
    requires a.Describe() == b.Describe()
    ensures a == b
  {
  }
}
