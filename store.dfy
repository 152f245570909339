/** The Quantum Book Store's inventory manager: an ordered inventory of books,
    appended to by the administrator, pruned of outdated books, and sold from by
    the purchase protocol. */
module Store {
  import opened Books

  /** The year that book ages are measured against; fixed in the store. */
  const CurrentYear: int := 2025

  datatype Option<T> = None | Some(value: T)

  /** The four ways a purchase fails. */
  datatype PurchaseError = NotFound | NotForSale | InsufficientStock | InvalidType

  /** What a successful purchase sets in motion: a paper book is shipped to the
      customer's address, an e-book is e-mailed to the customer. */
  datatype Fulfilment = Ship(address: string, title: string) | Email(email: string, title: string)

  /** The answer to a purchase: the amount charged and the fulfilment it
      triggered, or the error raised. */
  datatype PurchaseResult = Bought(total: int, fulfilment: Fulfilment) | Failed(error: PurchaseError)

  /** A purchase's answer together with the inventory it leaves behind. */
  datatype Outcome = Outcome(result: PurchaseResult, inventory: seq<Book>)

  // ---------------------------------------------------------------------------
  // Pruning outdated books

  /** How many years ago `b` was published. */
  function Age(b: Book, currentYear: int): (age: int)
  {
    currentYear - b.year
  }

  /** A book is kept when it is at most `maxAge` years old. */
  predicate IsRecent(b: Book, maxAge: int, currentYear: int)
  {
    Age(b, currentYear) <= maxAge
  }

  /** The books of `books` that are at most `maxAge` years old, in their
      original order. */
  function Recent(books: seq<Book>, maxAge: int, currentYear: int): (r: seq<Book>)
    ensures |r| <= |books|
    ensures forall k :: 0 <= k < |r| ==> IsRecent(r[k], maxAge, currentYear)
  {
    if books == [] then []
    else
      var last := books[|books| - 1];
      Recent(books[..|books| - 1], maxAge, currentYear) +
        (if IsRecent(last, maxAge, currentYear) then [last] else [])
  }

  /** Pruning distributes over concatenation: it keeps the relative order of the
      surviving books. */
  lemma {:induction false} RecentAppend(a: seq<Book>, b: seq<Book>, maxAge: int, currentYear: int)
    ensures Recent(a + b, maxAge, currentYear) == Recent(a, maxAge, currentYear) + Recent(b, maxAge, currentYear)
    decreases |b|
  {
    if b == [] {
      assert a + b == a;
    } else {
      var b' := b[..|b| - 1];
      assert (a + b)[..|a + b| - 1] == a + b';
      assert (a + b)[|a + b| - 1] == b[|b| - 1];
      RecentAppend(a, b', maxAge, currentYear);
    }
  }

  /** Pruning keeps exactly the recent books, each as many times as it occurs. */
  lemma {:induction false} RecentCounts(books: seq<Book>, maxAge: int, currentYear: int, b: Book)
    ensures multiset(Recent(books, maxAge, currentYear))[b] ==
            if IsRecent(b, maxAge, currentYear) then multiset(books)[b] else 0
  {
    if books != [] {
      var init := books[..|books| - 1];
      var last := books[|books| - 1];
      assert books == init + [last];
      RecentCounts(init, maxAge, currentYear, b);
    }
  }

  /** A book is in the pruned inventory exactly when it was in the inventory and
      is recent. */
  lemma RecentMembers(books: seq<Book>, maxAge: int, currentYear: int, b: Book)
    ensures b in Recent(books, maxAge, currentYear) <==> b in books && IsRecent(b, maxAge, currentYear)
  {
    RecentCounts(books, maxAge, currentYear, b);
    assert b in Recent(books, maxAge, currentYear) <==> multiset(Recent(books, maxAge, currentYear))[b] > 0;
    assert b in books <==> multiset(books)[b] > 0;
  }

  /** Pruning leaves an inventory alone exactly when every book in it is recent. */
  lemma {:induction false} RecentUnchangedIffAllRecent(books: seq<Book>, maxAge: int, currentYear: int)
    ensures Recent(books, maxAge, currentYear) == books <==>
            forall k :: 0 <= k < |books| ==> IsRecent(books[k], maxAge, currentYear)
  {
    if books != [] {
      var init := books[..|books| - 1];
      var last := books[|books| - 1];
      RecentUnchangedIffAllRecent(init, maxAge, currentYear);
      if !IsRecent(last, maxAge, currentYear) {
        assert |Recent(books, maxAge, currentYear)| < |books|;
      } else if Recent(books, maxAge, currentYear) == books {
        assert Recent(init, maxAge, currentYear) == init by {
          assert Recent(books, maxAge, currentYear) == Recent(init, maxAge, currentYear) + [last];
          assert books == init + [last];
        }
      }
    }
  }

  /** Pruning twice with the same limit gives what pruning once gives. */
  lemma RecentIdempotent(books: seq<Book>, maxAge: int, currentYear: int)
    ensures Recent(Recent(books, maxAge, currentYear), maxAge, currentYear) == Recent(books, maxAge, currentYear)
  {
    RecentUnchangedIffAllRecent(Recent(books, maxAge, currentYear), maxAge, currentYear);
  }

  /** The boundary is inclusive: a book exactly `maxAge` years old is kept, one a
      year older is removed. */
  lemma RecentBoundary(b: Book, maxAge: int, currentYear: int)
    ensures Age(b, currentYear) == maxAge ==> Recent([b], maxAge, currentYear) == [b]
    ensures Age(b, currentYear) == maxAge + 1 ==> Recent([b], maxAge, currentYear) == []
  {
    assert [b][..0] == [];
  }

  // ---------------------------------------------------------------------------
  // Purchasing

  /** The position of the first book in `books` with the given ISBN, if any. */
  function FirstMatch(books: seq<Book>, isbn: string): (r: Option<nat>)
    ensures r.None? <==> forall k :: 0 <= k < |books| ==> books[k].isbn != isbn
    ensures r.Some? ==> IsFirstMatch(books, isbn, r.value)
  {
    if books == [] then None
    else if books[0].isbn == isbn then Some(0)
    else match FirstMatch(books[1..], isbn)
      case None => None
      case Some(k) => Some(k + 1)
  }

  /** The purchase protocol on an inventory: find the first book with the ISBN,
      refuse it if it is not for sale, then check and reduce a paper book's stock
      and ship it, or e-mail an e-book, and charge the unit price times the
      quantity. */
  function Purchase(books: seq<Book>, isbn: string, quantity: int, email: string, address: string): (o: Outcome)
    ensures |o.inventory| == |books|
    ensures o.result.Failed? ==> o.inventory == books
  {
    match FirstMatch(books, isbn)
    case None => Outcome(Failed(NotFound), books)
    case Some(i) =>
      var book := books[i];
      if !book.IsForSale() then Outcome(Failed(NotForSale), books)
      else match book
        case PaperBook(_, _, _, _, _, _) =>
          if !book.HasStock(quantity) then Outcome(Failed(InsufficientStock), books)
          else Outcome(Bought(book.price * quantity, Ship(address, book.title)),
                       books[i := book.ReduceStock(quantity)])
        case EBook(_, _, _, _, _, _) =>
          Outcome(Bought(book.price * quantity, Email(email, book.title)), books)
        case ShowcaseBook(_, _, _, _, _) => Outcome(Failed(InvalidType), books)
  }

  /** `i` is the position of the first book with ISBN `isbn`. */
  predicate IsFirstMatch(books: seq<Book>, isbn: string, i: int)
  {
    0 <= i < |books| && books[i].isbn == isbn &&
    forall k :: 0 <= k < i ==> books[k].isbn != isbn
  }

  /** A purchase fails with NotFound exactly when no book carries the ISBN, and
      then the inventory is untouched. */
  lemma PurchaseNotFound(books: seq<Book>, isbn: string, quantity: int, email: string, address: string)
    ensures Purchase(books, isbn, quantity, email, address).result == Failed(NotFound) <==>
            forall k :: 0 <= k < |books| ==> books[k].isbn != isbn
    ensures Purchase(books, isbn, quantity, email, address).result == Failed(NotFound) ==>
            Purchase(books, isbn, quantity, email, address).inventory == books
  {
  }

  /** A showcase copy found first is never sold, whatever the quantity, and
      nothing changes. */
  lemma PurchaseShowcase(books: seq<Book>, isbn: string, quantity: int, email: string, address: string, i: int)
    requires IsFirstMatch(books, isbn, i) && books[i].ShowcaseBook?
    ensures Purchase(books, isbn, quantity, email, address) == Outcome(Failed(NotForSale), books)
  {
  }

  /** A paper book found first with less stock than asked for is refused, and
      nothing changes. */
  lemma PurchasePaperInsufficient(books: seq<Book>, isbn: string, quantity: int, email: string, address: string, i: int)
    requires IsFirstMatch(books, isbn, i) && books[i].PaperBook? && quantity > books[i].stock
    ensures Purchase(books, isbn, quantity, email, address) == Outcome(Failed(InsufficientStock), books)
  {
  }

  /** A paper book found first with enough stock is sold: its stock drops by the
      quantity, it is shipped to the address under its title, the price times
      the quantity is charged, and no other book and no other field changes. */
  lemma PurchasePaperSuccess(books: seq<Book>, isbn: string, quantity: int, email: string, address: string, i: int)
    requires IsFirstMatch(books, isbn, i) && books[i].PaperBook? && books[i].stock >= quantity
    ensures var o := Purchase(books, isbn, quantity, email, address);
      && o.result == Bought(books[i].price * quantity, Ship(address, books[i].title))
      && |o.inventory| == |books|
      && o.inventory[i] == books[i].(stock := books[i].stock - quantity)
      && (forall k :: 0 <= k < |books| && k != i ==> o.inventory[k] == books[k])
      && (books[i].stock >= 0 ==> o.inventory[i].stock >= 0)
  {
  }

  /** An e-book found first is always sold, whatever the quantity: it is
      e-mailed under its title, the price times the quantity is charged, and the
      inventory is untouched. */
  lemma PurchaseEBook(books: seq<Book>, isbn: string, quantity: int, email: string, address: string, i: int)
    requires IsFirstMatch(books, isbn, i) && books[i].EBook?
    ensures Purchase(books, isbn, quantity, email, address) ==
            Outcome(Bought(books[i].price * quantity, Email(email, books[i].title)), books)
  {
  }

  /** Over the three variants the invalid-type failure is never raised. */
  lemma InvalidTypeUnreachable(books: seq<Book>, isbn: string, quantity: int, email: string, address: string)
    ensures Purchase(books, isbn, quantity, email, address).result != Failed(InvalidType)
  {
  }

  /** Duplicate ISBNs: a book added after one with the same ISBN is shadowed, so
      adding it changes nothing about the purchase but the inventory's tail. */
  lemma {:induction false} LaterDuplicateIsShadowed(books: seq<Book>, extra: Book, isbn: string, quantity: int,
                                                   email: string, address: string)
    requires exists k :: 0 <= k < |books| && books[k].isbn == isbn
    ensures Purchase(books + [extra], isbn, quantity, email, address).result ==
            Purchase(books, isbn, quantity, email, address).result
    ensures Purchase(books + [extra], isbn, quantity, email, address).inventory ==
            Purchase(books, isbn, quantity, email, address).inventory + [extra]
  {
    var i := FirstMatch(books, isbn).value;
    assert FirstMatch(books + [extra], isbn) == Some(i) by {
      assert IsFirstMatch(books + [extra], isbn, i);
    }
    var book := books[i];
    if book.IsForSale() && book.PaperBook? && book.HasStock(quantity) {
      assert (books + [extra])[i := book.ReduceStock(quantity)] == books[i := book.ReduceStock(quantity)] + [extra];
    }
  }

  /** Every paper book in the inventory has a non-negative stock. */
  predicate StocksNonNegative(books: seq<Book>)
  {
    forall k :: 0 <= k < |books| && books[k].PaperBook? ==> books[k].stock >= 0
  }

  /** Purchases never drive a stock below zero. */
  lemma PurchaseKeepsStocksNonNegative(books: seq<Book>, isbn: string, quantity: int, email: string, address: string)
    requires StocksNonNegative(books)
    ensures StocksNonNegative(Purchase(books, isbn, quantity, email, address).inventory)
  {
    match FirstMatch(books, isbn)
    case None =>
    case Some(i) =>
      if books[i].PaperBook? && books[i].HasStock(quantity) {
        ReduceStockKeepsStockNonNegative(books[i], quantity);
      }
  }

  /** Pruning never introduces a negative stock. */
  lemma RecentKeepsStocksNonNegative(books: seq<Book>, maxAge: int, currentYear: int)
    requires StocksNonNegative(books)
    ensures StocksNonNegative(Recent(books, maxAge, currentYear))
  {
    var r := Recent(books, maxAge, currentYear);
    forall k | 0 <= k < |r| && r[k].PaperBook?
      ensures r[k].stock >= 0
    {
      RecentMembers(books, maxAge, currentYear, r[k]);
    }
  }

  // ---------------------------------------------------------------------------
  // The store

  /** The store owns its books, in the order they were added. */
  class BookStore {
    var inventory: seq<Book>

    constructor ()
      ensures inventory == []
    {
      inventory := [];
    }

    /** Appends `book` to the inventory; no duplicate ISBN check is made. */
    method AddBook(book: Book)
      modifies this
      ensures inventory == old(inventory) + [book]
    {
      inventory := inventory + [book];
    }

    /** Drops every book more than `maxAgeInYears` years old (measured against
        the store's current year) and keeps the rest in order. */
    method RemoveOutdatedBooks(maxAgeInYears: int)
      modifies this
      ensures inventory == Recent(old(inventory), maxAgeInYears, CurrentYear)
    {
      var updated: seq<Book> := [];
      var i := 0;
      while i < |inventory|
        invariant 0 <= i <= |inventory|
        invariant updated == Recent(inventory[..i], maxAgeInYears, CurrentYear)
      {
        var book := inventory[i];
        var bookAge := CurrentYear - book.year;
        assert inventory[..i + 1][..i] == inventory[..i];
        if bookAge <= maxAgeInYears {
          updated := updated + [book];
        }
        i := i + 1;
      }
      assert inventory[..i] == inventory;
      inventory := updated;
    }

    /** Runs the purchase protocol against the inventory, scanning it in order
        and acting on the first book whose ISBN matches. */
    method BuyBook(isbn: string, quantity: int, email: string, address: string) returns (r: PurchaseResult)
      modifies this
      ensures r == Purchase(old(inventory), isbn, quantity, email, address).result
      ensures inventory == Purchase(old(inventory), isbn, quantity, email, address).inventory
    {
      var i := 0;
      while i < |inventory|
        invariant 0 <= i <= |inventory|
        invariant inventory == old(inventory)
        invariant forall k :: 0 <= k < i ==> inventory[k].isbn != isbn
      {
        var book := inventory[i];
        if book.isbn == isbn {
          assert FirstMatch(inventory, isbn) == Some(i);
          if !book.IsForSale() {
            return Failed(NotForSale);
          }
          var fulfilment;
          match book {
            case PaperBook(_, _, _, _, _, _) =>
              if !book.HasStock(quantity) {
                return Failed(InsufficientStock);
              }
              inventory := inventory[i := book.ReduceStock(quantity)];
              fulfilment := Ship(address, book.title);
            case EBook(_, _, _, _, _, _) =>
              fulfilment := Email(email, book.title);
            case ShowcaseBook(_, _, _, _, _) =>
              return Failed(InvalidType);
          }
          return Bought(book.price * quantity, fulfilment);
        }
        i := i + 1;
      }
      return Failed(NotFound);
    }

    /** The listing of the whole inventory, one entry per book in inventory
        order; the inventory is only read. */
    method DisplayInventory() returns (listing: seq<Description>)
      ensures |listing| == |inventory|
      ensures forall k :: 0 <= k < |inventory| ==> listing[k] == inventory[k].Describe()
    {
      listing := [];
      for i := 0 to |inventory|
        invariant |listing| == i
        invariant forall k :: 0 <= k < i ==> listing[k] == inventory[k].Describe()
      {
        listing := listing + [inventory[i].Describe()];
      }
    }
  }
}
