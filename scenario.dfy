/** The store's scripted full-system scenario, restated as a client of the
    store: what each step returns and leaves behind follows from the methods'
    contracts and the specification functions they are stated in. */
module Scenario {
  import opened Books
  import opened Store

  method FullSystemTest()
  {
    var store := new BookStore();
    var paper := PaperBook("123", "bule elephant ", 2020, 3500, "Ahmed Morad", 5);
    var ebook := EBook("456", "The Old Man And The Sea", 2021, 2500, "wael hossam", ".pdf");
    var showcase := ShowcaseBook("789", "Sample Demo Book", 2019, 0, "Admin");
    store.AddBook(paper);
    store.AddBook(ebook);
    store.AddBook(showcase);
    assert store.inventory == [paper, ebook, showcase];

    var first := store.BuyBook("123", 2, "customer@mail.com", "123 Main St");
    assert FirstMatch([paper, ebook, showcase], "123") == Some(0);
    assert first == Bought(7000, Ship("123 Main St", "bule elephant "));
    var paper' := paper.(stock := 3);
    assert store.inventory == [paper', ebook, showcase];

    var second := store.BuyBook("456", 1, "customer@mail.com", "");
    assert FirstMatch([paper', ebook, showcase], "456") == Some(1);
    assert second == Bought(2500, Email("customer@mail.com", "The Old Man And The Sea"));
    assert store.inventory == [paper', ebook, showcase];

    var third := store.BuyBook("999", 1, "customer@mail.com", "Nowhere");
    PurchaseNotFound([paper', ebook, showcase], "999", 1, "customer@mail.com", "Nowhere");
    assert third == Failed(NotFound);

    var listing := store.DisplayInventory();
    assert listing[0].detail == StockLine(3);

    assert store.inventory == [paper', ebook, showcase];
    store.RemoveOutdatedBooks(3);
    assert Recent([paper'], 3, CurrentYear) == [] by { assert [paper'][..0] == []; }
    assert Recent([paper', ebook], 3, CurrentYear) == [] by { assert [paper', ebook][..1] == [paper']; }
    assert [paper', ebook, showcase][..2] == [paper', ebook];
    assert store.inventory == [];
  }
}
