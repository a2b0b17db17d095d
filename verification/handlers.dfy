/** The request handlers: field-presence validation in front of the store, and the
    mapping from store results to HTTP status codes. Each handler is a pure function
    from its abstract request input and the current store to a reply that carries
    the status, the body and the store after the request. JSON decoding, path and
    query extraction, integer parsing and the random source are inputs. */
module Handlers {
  import opened Wrappers
  import opened Models
  import Storage

  /** The statuses the handlers produce (the 500 on a failed response encoding is not modelled). */
  datatype Status = OK | Created | NoContent | BadRequest | NotFound {
    /** The numeric HTTP status code. */
    function Code(): int {
      match this
      case OK => 200
      case Created => 201
      case NoContent => 204
      case BadRequest => 400
      case NotFound => 404
    }
  }

  /** What the response body carries: nothing (an error message or 204), one quote, or a list. */
  datatype Body = NoBody | One(quote: Quote) | Many(quotes: seq<Quote>)

  datatype Reply = Reply(status: Status, body: Body, store: Storage.Store)

  /** A store reachable through the handlers: the store invariant, and every stored
      quote has a non-empty author and text (the create validation). */
  ghost predicate WellFormed(s: Storage.Store) {
    && Storage.Valid(s)
    && forall i :: 0 <= i < |s.quotes| ==> s.quotes[i].author != "" && s.quotes[i].text != ""
  }

  /** The request fields the create handler insists on. */
  predicate Complete(q: Quote) {
    q.author != "" && q.text != ""
  }

  /** POST /quotes. `decoded` is the decoded body, or `None` when decoding failed; the id
      it carries is ignored. Every rejection leaves both the quotes and the id counter alone. */
  function CreateQuote(s: Storage.Store, decoded: Option<Quote>): (r: Reply)
    ensures r.status == Created <==> decoded.Some? && Complete(decoded.value)
    ensures r.status != Created ==> r.status == BadRequest && r.body == NoBody && r.store == s
    ensures r.status == Created ==>
              && r.body == One(Quote(s.nextId, decoded.value.author, decoded.value.text))
              && r.store.quotes == s.quotes + [r.body.quote]
              && r.store.nextId == s.nextId + 1
    ensures WellFormed(s) ==> WellFormed(r.store)
  {
    match decoded
    case None => Reply(BadRequest, NoBody, s)
    case Some(q) =>
      if q.author == "" || q.text == "" then Reply(BadRequest, NoBody, s)
      else
        var (s', id) := Storage.AddQuote(s, q);
        assert s'.quotes == s.quotes + [s'.quotes[|s.quotes|]];
        Reply(Created, One(q.(id := id)), s')
  }

  /** GET /quotes. Every stored quote in insertion order, an empty store giving an empty list. */
  function GetAllQuotes(s: Storage.Store): (r: Reply)
    ensures r.status == OK && r.store == s
    ensures r.body.Many? && |r.body.quotes| == |s.quotes|
    ensures forall i :: 0 <= i < |s.quotes| ==> r.body.quotes[i] == s.quotes[i]
  {
    Reply(OK, Many(Storage.GetAllQuotes(s)), s)
  }

  /** GET /quotes/random. `pick` is the index the random source chose; the source draws it
      from [0, n) for n stored quotes, and draws nothing when there are none. */
  function GetRandomQuote(s: Storage.Store, pick: nat): (r: Reply)
    requires |s.quotes| > 0 ==> pick < |s.quotes|
    ensures r.status == NotFound <==> |s.quotes| == 0
    ensures r.status != NotFound ==> r.status == OK && r.body.One? && r.body.quote in s.quotes
    ensures r.status == NotFound ==> r.body == NoBody
    ensures r.store == s
  {
    var quotes := Storage.GetAllQuotes(s);
    if |quotes| == 0 then Reply(NotFound, NoBody, s)
    else Reply(OK, One(quotes[pick]), s)
  }

  /** Every stored quote is a possible answer of the random handler. */
  lemma {:induction false} RandomCanReturnAny(s: Storage.Store, q: Quote)
    requires q in s.quotes
    ensures exists pick: nat :: pick < |s.quotes| && GetRandomQuote(s, pick) == Reply(OK, One(q), s)
  {
    var k :| 0 <= k < |s.quotes| && s.quotes[k] == q;
    assert GetRandomQuote(s, k) == Reply(OK, One(q), s);
  }

  /** GET /quotes?author=X. An absent query parameter reads as the empty string, and both
      are rejected without consulting the store; otherwise the exact author filter. */
  function GetQuotesByAuthor(s: Storage.Store, author: string): (r: Reply)
    ensures r.store == s
    ensures r.status == BadRequest <==> author == ""
    ensures r.status == BadRequest ==> r.body == NoBody
    ensures r.status != BadRequest ==>
              && r.status == OK && r.body.Many?
              && (forall q :: q in r.body.quotes <==> q in s.quotes && q.author == author)
              && Storage.IsSubseq(r.body.quotes, s.quotes)
    ensures r.status == OK ==> r.body.quotes == Storage.GetQuotesByAuthor(s, author)
  {
    if author == "" then Reply(BadRequest, NoBody, s)
    else Reply(OK, Many(Storage.GetQuotesByAuthor(s, author)), s)
  }

  /** DELETE /quotes/{id}. `id` is the parsed path parameter, or `None` when it is not an
      integer. Only a successful delete changes the store, and it never moves the counter. */
  function DeleteQuote(s: Storage.Store, id: Option<int>): (r: Reply)
    ensures r.body == NoBody
    ensures id.None? ==> r.status == BadRequest
    ensures r.status == NoContent <==> id.Some? && Storage.HasId(s.quotes, id.value)
    ensures r.status == NotFound <==> id.Some? && !Storage.HasId(s.quotes, id.value)
    ensures r.status != NoContent ==> r.store == s
    ensures r.store.nextId == s.nextId
    ensures r.status == NoContent ==> r.store == Storage.DeleteQuote(s, id.value).0
    ensures r.status == NoContent && Storage.Valid(s) ==>
              forall q :: q in r.store.quotes <==> q in s.quotes && q.id != id.value
    ensures WellFormed(s) ==> WellFormed(r.store)
  {
    match id
    case None => Reply(BadRequest, NoBody, s)
    case Some(n) =>
      var (s', deleted) := Storage.DeleteQuote(s, n);
      if !deleted then Reply(NotFound, NoBody, s)
      else Reply(NoContent, NoBody, s')
  }

  /** A created quote is what the store now holds last, and listing returns it. */
  lemma CreateThenList(s: Storage.Store, q: Quote)
    requires Complete(q)
    ensures var c := CreateQuote(s, Some(q));
            var l := GetAllQuotes(c.store);
            l.body.quotes == s.quotes + [c.body.quote]
  {
  }

  /** Deleting the quote a create just returned answers 204 and restores the earlier quotes. */
  lemma {:induction false} CreateThenDelete(s: Storage.Store, q: Quote)
    requires Storage.Valid(s)
    requires Complete(q)
    ensures var c := CreateQuote(s, Some(q));
            var d := DeleteQuote(c.store, Some(c.body.quote.id));
            d.status == NoContent && d.store.quotes == s.quotes && d.store.nextId == s.nextId + 1
  {
    Storage.AddThenDelete(s, q);
  }
}
