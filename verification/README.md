# Quoter: a verified model of the quote store and its HTTP handlers

Quoter is a small HTTP service that stores quotations attributed to authors. Its
core is an in-memory store: a sequence of quotes plus a `nextID` counter, guarded
by one mutex. Its handlers validate requests and map store results to status
codes. This project models both as pure Dafny functions and proves what they
promise:

- ids are handed out sequentially from 1 and never reused, even after deletion;
- ids strictly increase along the stored sequence, so they are unique;
- the author filter returns exactly the matching quotes, in order;
- delete removes exactly the quote with that id and leaves the others alone;
- every rejected request (400/404) leaves the store untouched.

Layout:

- `wrappers.dfy` — `Option`.
- `models.dfy` — the `Quote` record (`id`, `author`, `text`; the service calls the text field `Quote`).
- `storage.dfy` — `Store(quotes, nextId)` and the store operations. It also holds
  the invariant `Valid`: ids strictly increase, and each id lies in `[1, nextId)`.
  Traces of operations are modelled by `Step`/`Run`.
- `handlers.dfy` — each handler is a function from (store, abstract request input)
  to `Reply(status, body, store)`. `WellFormed` adds the handler-level invariant that
  stored authors and texts are non-empty.
- `scenarios.dfy` — the request sequences of the handler tests, stated as lemmas.

The HTTP request inputs become plain values:

- The decoded JSON body is an `Option<Quote>`; `None` means decoding failed.
- The `{id}` path parameter after integer parsing is an `Option<int>`.
- The `author` query parameter is a string; an absent parameter reads as `""`.
- The random index is a parameter `pick`, which must lie in `[0, n)` when the store holds `n > 0` quotes.

## Model

| member | source | states |
|---|---|---|
| Storage.NewMemoryStorage | src/storage/memory.go:20-25 | a fresh store has no quotes, the next id is 1, and it satisfies the store invariant |
| Storage.AddQuote | src/storage/memory.go:27-37 | returns the old counter as the id and increments the counter by one. It appends the quote under that id, overwriting any caller-supplied id, and leaves earlier quotes unchanged. It preserves the invariant, and the new id was not in use before |
| Storage.GetAllQuotes | src/storage/memory.go:39-44 | returns every stored quote in insertion order; on a valid store their ids are increasing |
| Storage.FilterByAuthor | src/storage/memory.go:50-58 | the range-and-append loop keeps a quote iff its author equals the argument exactly. Each matching quote keeps its full multiplicity and no other quote appears |
| Storage.FilterIsSubseq | src/storage/memory.go:52-56 | the filter result is a subsequence of the stored quotes (relative order kept) |
| Storage.GetQuotesByAuthor | src/storage/memory.go:46-59 | returns exactly the quotes with that author, as an order-preserving subsequence with increasing ids; an empty result when none match |
| Storage.FindId | src/storage/memory.go:65-70 | the delete loop finds the first position holding the id, or reports that no position holds it |
| Storage.DeleteQuote | src/storage/memory.go:61-73 | returns true iff some quote has the id. If so, exactly that element is removed and the rest keep their order; if not, the store is unchanged. The counter never changes, the invariant is kept, and afterwards no quote has the id |
| Storage.AddThenDelete | src/storage/memory.go:27-73 | deleting the id that an add just returned gives true and restores the previous quotes; only the counter has advanced |
| Storage.DeleteTwice | src/storage/memory.go:61-73 | a second delete of the same id returns false and changes nothing |
| Storage.AddThenFilter | src/storage/memory.go:27-59 | after an add, the filter for that author returns the previous matches followed by the new quote |
| Storage.Step | src/storage/memory.go:8-13 | each store operation keeps the invariant; only an add assigns an id, the next counter value; list operations leave the store unchanged |
| Storage.Run | src/storage/memory.go:27-73 | over any sequence of operations the invariant holds, the counter never decreases, and the assigned ids strictly increase within [old counter, new counter) |
| Storage.IdsNeverReused | src/storage/memory.go:31-32 | an id below the counter, whether stored or already deleted, is never assigned again, whatever operations follow |
| Storage.SequentialIds | src/storage/memory.go:31-34 | N adds in a row get consecutive ids from the counter, in call order, and the quotes are appended in that order |
| Storage.FreshIdsStartAtOne | src/storage/memory.go:20-37 | from a fresh store, N adds get ids 1..N in call order |
| Handlers.CreateQuote | src/handlers/quoteHandler.go:21-42 | 201 iff the body decoded and both author and text are non-empty. Then the reply carries the quote under the id the store assigned, and the store holds it appended with the counter advanced by one. Otherwise 400, with the quotes and counter untouched |
| Handlers.GetAllQuotes | src/handlers/quoteHandler.go:44-52 | 200 with every stored quote in order; the store is unchanged |
| Handlers.GetRandomQuote | src/handlers/quoteHandler.go:54-71 | 404 iff the store is empty; otherwise 200 with a quote that is in the store; the store is unchanged |
| Handlers.RandomCanReturnAny | src/handlers/quoteHandler.go:62-63 | every stored quote is returned by some in-range random index |
| Handlers.GetQuotesByAuthor | src/handlers/quoteHandler.go:73-87 | 400 iff the author parameter is empty, without consulting the store. Otherwise 200 with the store's author filter: exactly the quotes by that author, as an order-preserving subsequence. The store is unchanged |
| Handlers.DeleteQuote | src/handlers/quoteHandler.go:89-103 | an unparsable id gives 400. An id no quote has gives 404. An existing id gives 204, and only then does the store change, to the result of the store's delete: exactly the quotes with that id are removed. The counter never moves |
| Handlers.CreateThenList | src/handlers/quoteHandler.go:21-52 | after a successful create, listing returns the earlier quotes followed by the created one |
| Handlers.CreateThenDelete | src/handlers/quoteHandler.go:21-103 | deleting the id a create just returned answers 204 and restores the earlier quotes |
| Scenarios.Seeded | src/handlers/quote_test.go:22-30 | seeding a fresh store with quotes stores the k-th under id k+1, keeping author and text |
| Scenarios.CreateOnFreshStore | src/handlers/quote_test.go:39-60 | creating the test's Confucius quote on a fresh store answers 201 with id 1; listing returns exactly that quote |
| Scenarios.SuppliedIdOverwritten | src/handlers/quote_test.go:62-66 | an id carried by a seeded quote is overwritten by the store's id |
| Scenarios.RandomOnSingleQuote | src/handlers/quote_test.go:84-104 | with one stored quote, the random handler returns id 1 |
| Scenarios.FilterOneOfTwoAuthors | src/handlers/quote_test.go:106-127 | with a Confucius quote and a Plato quote seeded, filtering by Confucius answers 200 with exactly one quote, id 1 |
| Scenarios.DeleteFirstOfTwo | src/storage/memory.go:61-73 | with two quotes by different authors, filtering by the second author returns only id 2; after deleting id 1, listing returns only id 2 |
| Scenarios.DeleteOnlyQuote | src/handlers/quote_test.go:129-154 | deleting the only quote answers 204 and listing then returns an empty list; a second delete answers 404 |

## Left out

- HTTP plumbing is abstracted away: response writers, headers, error message texts, gorilla/mux routing and path-variable extraction. `src/cmd/main.go` (route registration and `ListenAndServe`) is not part of this model.
- JSON decoding is a parameter: the decoded body or `None`. Response encoding is not modelled, and neither is an encoding failure after the status header has been sent (src/handlers/quoteHandler.go:36-41 and the implicit 200 of the other handlers).
- `strconv.Atoi` is not reimplemented. The delete handler receives the parse result as `Option<int>`.
- `math/rand` is replaced by the `pick` parameter. The model proves that the reply is a stored quote and that every stored quote can be picked. It does not state uniformity, which is a property of the random source.
- `sync.Mutex` is not modelled. Each store operation holds the lock for its whole duration, so the model treats it as one atomic transition.
- Go slice aliasing is not modelled. `GetAllQuotes` returns the live backing slice (src/storage/memory.go:43). `DeleteQuote` shifts that array in place (src/storage/memory.go:67), which can alter a slice an earlier caller received. Dafny sequences are values, so the model has copy-on-read semantics.
- Storage.AddQuote: the counter is an unbounded integer. Go's `int` counter would wrap after 2^63 - 1 additions, which the model does not represent.
- Storage.GetQuotesByAuthor: when nothing matches, the Go function returns a nil slice, which JSON encodes as `null`. The model returns an empty sequence, the same as an empty list. The JSON difference is out of scope.
- The `quoter/models` package is not part of this model. The `Quote` record is reconstructed from its uses: an integer `ID`, and the `Author` and `Quote` strings.
