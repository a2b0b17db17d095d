/** The request sequences the handler tests exercise, stated over the model. A store is
    seeded the way the tests seed it: a fresh store, then one `AddQuote` per quote. */
module Scenarios {
  import opened Wrappers
  import opened Models
  import Storage
  import Handlers

  /** A fresh store with `qs` added in order. */
  function Seeded(qs: seq<Quote>): (s: Storage.Store)
    ensures Storage.Valid(s)
    ensures |s.quotes| == |qs|
    ensures forall k :: 0 <= k < |qs| ==> s.quotes[k] == Quote(k + 1, qs[k].author, qs[k].text)
    ensures s.nextId == |qs| + 1
    decreases |qs|
  {
    if |qs| == 0 then Storage.NewMemoryStorage()
    else
      var prev := Seeded(qs[..|qs| - 1]);
      var (s, _) := Storage.AddQuote(prev, qs[|qs| - 1]);
      s
  }

  const confucius := Quote(0, "Confucius", "Life is simple.")
  const complicated := Quote(0, "Confucius", "Life is simple, but we insist on making it complicated.")
  const plato := Quote(0, "Plato", "The greatest wealth is to live content with little.")

  /** Creating a quote on a fresh store answers 201 with id 1; listing then returns
      exactly that quote. */
  lemma CreateOnFreshStore()
    ensures var c := Handlers.CreateQuote(Storage.NewMemoryStorage(), Some(complicated));
            && c.status == Handlers.Created
            && c.body == Handlers.One(complicated.(id := 1))
            && Handlers.GetAllQuotes(c.store).body == Handlers.Many([complicated.(id := 1)])
  {
  }

  /** The id a request body carries is overwritten: seeding a quote that claims id 7
      still stores it under id 1. */
  lemma SuppliedIdOverwritten()
    ensures Seeded([confucius.(id := 7)]).quotes == [Quote(1, "Confucius", "Life is simple.")]
  {
  }

  /** With one stored quote, the random handler can only return it. */
  lemma RandomOnSingleQuote(pick: nat)
    requires pick < 1
    ensures Handlers.GetRandomQuote(Seeded([confucius]), pick).body.quote.id == 1
  {
  }

  /** Two quotes by different authors: filtering by the first author answers 200 with
      exactly its one quote. */
  lemma FilterOneOfTwoAuthors()
    ensures var r := Handlers.GetQuotesByAuthor(Seeded([confucius, plato]), "Confucius");
            && r.status == Handlers.OK
            && r.body == Handlers.Many([Quote(1, "Confucius", confucius.text)])
  {
    var s := Seeded([confucius, plato]);
    var first := Quote(1, "Confucius", confucius.text);
    assert s.quotes == [first, Quote(2, "Plato", plato.text)];
    assert s.quotes[..1] == [first];
    assert [first][..0] == [];
    assert Storage.FilterByAuthor([first], "Confucius") == [first];
    assert Storage.FilterByAuthor(s.quotes, "Confucius") == [first];
  }

  /** Two quotes by different authors: filtering by the second author returns only id 2;
      after deleting id 1 only id 2 is listed. */
  lemma DeleteFirstOfTwo()
    ensures var s := Seeded([confucius, plato]);
            && Handlers.GetQuotesByAuthor(s, "Plato").body
                 == Handlers.Many([Quote(2, "Plato", plato.text)])
            && Handlers.DeleteQuote(s, Some(1)).status == Handlers.NoContent
            && Handlers.GetAllQuotes(Handlers.DeleteQuote(s, Some(1)).store).body
                 == Handlers.Many([Quote(2, "Plato", plato.text)])
  {
    var s := Seeded([confucius, plato]);
    assert s.quotes == [Quote(1, "Confucius", confucius.text), Quote(2, "Plato", plato.text)];
    assert Storage.FindId(s.quotes, 1, 0) == Some(0);
    assert s.quotes[..0] + s.quotes[1..] == [Quote(2, "Plato", plato.text)];
    assert s.quotes[..1] == [Quote(1, "Confucius", confucius.text)];
    assert Storage.FilterByAuthor(s.quotes[..1], "Plato") == [];
  }

  /** Deleting the only quote answers 204 and leaves an empty list; deleting it again
      answers 404. */
  lemma DeleteOnlyQuote()
    ensures var s := Seeded([confucius]);
            var d := Handlers.DeleteQuote(s, Some(1));
            && d.status == Handlers.NoContent
            && Handlers.GetAllQuotes(d.store).body == Handlers.Many([])
            && Handlers.DeleteQuote(d.store, Some(1)).status == Handlers.NotFound
  {
    var s := Seeded([confucius]);
    assert Storage.FindId(s.quotes, 1, 0) == Some(0);
  }
}
