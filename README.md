# Quantum Book Store — inventory model in Dafny

This project models the inventory domain of the Quantum Book Store, a small
console bookstore written in C++ (`main.cpp`).

- **Book taxonomy** (`books.dfy`, module `Books`). A book is one catalogue record:
  ISBN, title, publication year, unit price and author. It comes in one of three
  closed variants:
  - a paper book, with a stock count;
  - an e-book, with a file type;
  - a showcase copy, which is never for sale.

  The virtual methods `isForSale`, `hasStock`, `reduceStock` and `printInfo`
  become member functions of the datatype `Book`. `printInfo` produces a
  structured listing entry (`Description`) instead of console text.
- **Store** (`store.dfy`, module `Store`). `BookStore` is a class whose
  `inventory` field is an ordered `seq<Book>`. Its methods are:
  - `AddBook`, which appends a book;
  - `RemoveOutdatedBooks`, which keeps the books at most `maxAgeInYears` years
    old, measured against the fixed year 2025;
  - `BuyBook`, which runs the purchase protocol;
  - `DisplayInventory`, which lists the inventory without changing it.

  `AddBook`'s contract states the appended inventory directly. The other three
  methods are proved against pure specification functions:
  - `Recent` specifies pruning;
  - `FirstMatch` and `Purchase` specify the purchase;
  - `Describe` specifies each listing entry.

  Lemmas prove the store's promises about those functions. A purchase answers
  `Bought(total, fulfilment)` or `Failed(error)`. The error is one of NotFound,
  NotForSale, InsufficientStock or InvalidType. The shipping and mail services
  become a fulfilment event in the answer: `Ship(address, title)` or
  `Email(email, title)`.
- **Scenario** (`scenario.dfy`, module `Scenario`). The store's scripted full
  test is restated as a client method. Its asserts follow from the methods'
  contracts and the specification functions those contracts are stated in.

Prices and amounts are integer cents. Years, stocks and quantities are
unbounded integers. Quantities are not validated, as in the source: a zero or
negative quantity is accepted and charges a non-positive amount. The year that
ages are measured against is the constant 2025 in `BookStore.RemoveOutdatedBooks`,
because the code hard-codes it (main.cpp:121). The specification function
`Recent` and its lemmas take the year as a parameter, so they hold for any year.

## Model

| member | source | states |
|---|---|---|
| `Books.SaleAndStockByVariant` | main.cpp:38-99 | a book is for sale exactly when it is not a showcase copy; a paper book has stock for `q` exactly when `stock >= q`; every other variant always has stock and reducing its stock changes nothing |
| `Books.Book.ReduceStock` | main.cpp:68-70 | the book keeps its variant and every catalogue field; afterwards it has stock for `k` exactly when it had stock for `k + quantity` before |
| `Books.ReduceStockKeepsStockNonNegative` | main.cpp:64-70 | a paper book with non-negative stock that has stock for `quantity` still has non-negative stock after the reduction |
| `Books.Book.Describe` | main.cpp:40-44 | the listing entry shows the book's title, author, year, price and ISBN; a paper book's entry adds a line with its stock, an e-book's a line with its file type, and exactly the books not for sale get the not-for-sale line |
| `Books.DescriptionDeterminesBook` | main.cpp:40-104 | two books with the same listing entry are the same book: the listing leaves no field out |
| `Store.Recent` | main.cpp:120-135 | pruning never lengthens the inventory and every book it keeps is at most `maxAge` years old |
| `Store.RecentAppend` | main.cpp:124-134 | pruning a concatenation is the concatenation of the pruned parts, so the kept books stay in their original order |
| `Store.RecentCounts` | main.cpp:124-134 | each book occurs in the pruned inventory as often as in the original when it is recent, and not at all otherwise |
| `Store.RecentMembers` | main.cpp:124-134 | a book is in the pruned inventory exactly when it was in the inventory and is recent |
| `Store.RecentUnchangedIffAllRecent` | main.cpp:120-135 | pruning leaves the inventory unchanged exactly when every book in it is recent |
| `Store.RecentIdempotent` | main.cpp:120-135 | pruning twice with the same limit and year gives the same inventory as pruning once |
| `Store.RecentBoundary` | main.cpp:125-126 | a book exactly `maxAge` years old is kept; one `maxAge + 1` years old is removed |
| `Store.RecentKeepsStocksNonNegative` | main.cpp:120-135 | pruning an inventory whose paper stocks are non-negative leaves them non-negative |
| `Store.FirstMatch` | main.cpp:138-139 | the result is absent exactly when no book has the ISBN; otherwise it is the position of a book with that ISBN, and no earlier book has it |
| `Store.Purchase` | main.cpp:137-161 | the purchase keeps the inventory's length, and a failed purchase leaves the inventory unchanged (no partial mutation) |
| `Store.PurchaseNotFound` | main.cpp:138-160 | a purchase fails with NotFound exactly when no book has the ISBN, and then the inventory is unchanged |
| `Store.PurchaseShowcase` | main.cpp:140-142 | when the first book with the ISBN is a showcase copy, the purchase fails with NotForSale for every quantity and the inventory is unchanged |
| `Store.PurchasePaperInsufficient` | main.cpp:144-147 | when the first match is a paper book with less stock than the quantity, the purchase fails with InsufficientStock and the inventory is unchanged |
| `Store.PurchasePaperSuccess` | main.cpp:144-156 | when the first match is a paper book with enough stock, the purchase charges `price * quantity` and ships under the book's title; the book's stock drops by the quantity and nothing else changes, and a non-negative stock stays non-negative |
| `Store.PurchaseEBook` | main.cpp:150-156 | when the first match is an e-book, the purchase succeeds for every quantity, charges `price * quantity`, e-mails under the title and leaves the inventory unchanged |
| `Store.InvalidTypeUnreachable` | main.cpp:143-154 | no purchase fails with InvalidType |
| `Store.LaterDuplicateIsShadowed` | main.cpp:138-139 | when a book with the ISBN is already present, appending another book changes neither the purchase's answer nor the inventory before the appended book |
| `Store.PurchaseKeepsStocksNonNegative` | main.cpp:144-149 | a purchase never makes a paper book's stock negative when all were non-negative before |
| `Store.BookStore.constructor` | main.cpp:109 | a new store has an empty inventory |
| `Store.BookStore.AddBook` | main.cpp:116-118 | the book is appended at the end; every earlier entry and its order is unchanged |
| `Store.BookStore.RemoveOutdatedBooks` | main.cpp:120-135 | the new inventory is `Recent` of the old one, with maximum age `maxAgeInYears` and year 2025 |
| `Store.BookStore.BuyBook` | main.cpp:137-161 | the answer and the new inventory are those of `Purchase` on the old inventory |
| `Store.BookStore.DisplayInventory` | main.cpp:163-167 | the listing has one entry per book, in inventory order, each that book's `Describe()`; the inventory is only read |

## Left out

- Console output is not modelled. This covers the `cout` text of `printInfo`,
  the notice printed for each removed book, the bodies of `ShippingService::ship`
  and `MailService::sendEmail`, and the number formatting of prices. Listing
  entries and fulfilment events are returned as values instead.
- `getValidIntInput`, the interactive menus in `main` and their input checks are
  not modelled. This includes the check that a publication year is not in the
  future. They are console input and presentation.
- The plain base class `Book` is not modelled as a fourth kind of book. The
  source can construct one (main.cpp:33), and buying one would reach the
  "Invalid book type" error (main.cpp:152-153). No caller in the source builds a
  plain `Book` (main.cpp:194-196, 336, 361, 365), so `Book` has only the three
  variants. `Store.InvalidTypeUnreachable` therefore holds only over those three.
- `QuantumBookstoreFullTest` is restated as `Scenario.FullSystemTest` without
  its printed output.
- The ownership of books through raw pointers and `delete` is not modelled. This
  covers `~BookStore` and the deletion in `removeOutdatedBooks`. The store holds
  its books as values.
- `Books.Book.ReduceStock` returns the updated book, and the store writes it back
  at the book's position. The source updates the `PaperBook` object through the
  inventory's pointer. No other reference to a stored book exists, so the two
  agree.
- `Store.Purchase` charges `price * quantity` exactly, in integer cents. The
  source multiplies a `double` price and can round.
- `Books.Book.ReduceStock` does not model 32-bit `int` overflow of
  `stock - quantity`. Nor does `Store.Age` model overflow of `2025 - year`. Every
  integer is unbounded.
- The default argument `quantity = 1` of `hasStock` is not modelled. Every call
  in the source passes the quantity explicitly.
