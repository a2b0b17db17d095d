/** The in-memory quote store: a sequence of quotes in insertion order and the
    counter that supplies the next id. Every operation of the store runs under one
    exclusive lock, so each is modelled as an atomic transition on an immutable
    `Store` value. */
module Storage {
  import opened Wrappers
  import opened Models

  datatype Store = Store(quotes: seq<Quote>, nextId: int)

  /* ---------------------------------------------------------------------------
     The store invariant
     ------------------------------------------------------------------------- */

  /** Ids strictly increase along the sequence, hence are pairwise distinct. */
  ghost predicate IdsIncreasing(qs: seq<Quote>) {
    forall i, j :: 0 <= i < j < |qs| ==> qs[i].id < qs[j].id
  }

  /** Every stored id has already been handed out: 1 <= id < nextId. */
  ghost predicate IdsIssued(s: Store) {
    forall i :: 0 <= i < |s.quotes| ==> 1 <= s.quotes[i].id < s.nextId
  }

  /** The invariant every store operation keeps. */
  ghost predicate Valid(s: Store) {
    1 <= s.nextId && IdsIncreasing(s.quotes) && IdsIssued(s)
  }

  /** Some stored quote carries `id`. */
  ghost predicate HasId(qs: seq<Quote>, id: int) {
    exists i :: 0 <= i < |qs| && qs[i].id == id
  }

  /** `r` is obtained from `qs` by dropping some elements, keeping the order of the rest. */
  ghost predicate IsSubseq<T>(r: seq<T>, qs: seq<T>)
    decreases |qs|
  {
    if |r| == 0 then true
    else if |qs| == 0 then false
    else
      (r[|r| - 1] == qs[|qs| - 1] && IsSubseq(r[..|r| - 1], qs[..|qs| - 1]))
      || IsSubseq(r, qs[..|qs| - 1])
  }

  /** Increasing ids are distinct: two positions with the same id are the same position. */
  lemma IdsIncreasingUnique(qs: seq<Quote>, i: int, j: int)
    requires IdsIncreasing(qs)
    requires 0 <= i < |qs| && 0 <= j < |qs| && i != j
    ensures qs[i].id != qs[j].id
  {
  }

  /* ---------------------------------------------------------------------------
     Operations
     ------------------------------------------------------------------------- */

  /** A fresh store: no quotes, and the first id handed out will be 1. */
  function NewMemoryStorage(): (s: Store)
    ensures Valid(s)
    ensures |s.quotes| == 0 && s.nextId == 1
  {
    Store([], 1)
  }

  /** Stores `q` under the next id, whatever id `q` carried, and returns that id.
      The result is the new store together with the assigned id. */
  function AddQuote(s: Store, q: Quote): (r: (Store, int))
    ensures r.1 == s.nextId
    ensures r.0.nextId == s.nextId + 1
    ensures |r.0.quotes| == |s.quotes| + 1
    ensures r.0.quotes[..|s.quotes|] == s.quotes
    ensures r.0.quotes[|s.quotes|] == Quote(r.1, q.author, q.text)
    ensures Valid(s) ==> Valid(r.0) && HasId(r.0.quotes, r.1) && !HasId(s.quotes, r.1)
  {
    var stored := q.(id := s.nextId);
    var s' := Store(s.quotes + [stored], s.nextId + 1);
    assert s'.quotes[|s.quotes|] == stored;
    (s', stored.id)
  }

  /** Every stored quote, in insertion order; the store is not changed. */
  function GetAllQuotes(s: Store): (r: seq<Quote>)
    ensures |r| == |s.quotes|
    ensures forall i :: 0 <= i < |r| ==> r[i] == s.quotes[i]
    ensures Valid(s) ==> IdsIncreasing(r)
  {
    s.quotes
  }

  /** The quotes of `qs` whose author is exactly `author`, in their original order:
      the range loop over the stored slice that appends each match. */
  function FilterByAuthor(qs: seq<Quote>, author: string): (r: seq<Quote>)
    ensures |r| <= |qs|
    ensures forall q :: q in r <==> q in qs && q.author == author
    ensures forall q :: multiset(r)[q] == if q.author == author then multiset(qs)[q] else 0
  {
    if |qs| == 0 then []
    else
      var last := qs[|qs| - 1];
      assert qs == qs[..|qs| - 1] + [last];
      if last.author == author then FilterByAuthor(qs[..|qs| - 1], author) + [last]
      else FilterByAuthor(qs[..|qs| - 1], author)
  }

  /** The filter keeps the relative order of the quotes it selects. */
  lemma {:induction false} FilterIsSubseq(qs: seq<Quote>, author: string)
    ensures IsSubseq(FilterByAuthor(qs, author), qs)
    decreases |qs|
  {
    if |qs| > 0 {
      var init := qs[..|qs| - 1];
      FilterIsSubseq(init, author);
      var r := FilterByAuthor(qs, author);
      if qs[|qs| - 1].author == author {
        assert r[..|r| - 1] == FilterByAuthor(init, author);
      } else {
        assert r == FilterByAuthor(init, author);
      }
    }
  }

  /** A subsequence of a sequence with increasing ids has increasing ids. */
  lemma {:induction false} SubseqKeepsIdsIncreasing(r: seq<Quote>, qs: seq<Quote>)
    requires IsSubseq(r, qs)
    requires IdsIncreasing(qs)
    ensures IdsIncreasing(r)
    ensures forall q :: q in r ==> q in qs
    decreases |qs|
  {
    if |r| > 0 {
      var qi := qs[..|qs| - 1];
      if r[|r| - 1] == qs[|qs| - 1] && IsSubseq(r[..|r| - 1], qi) {
        var ri := r[..|r| - 1];
        SubseqKeepsIdsIncreasing(ri, qi);
        assert r == ri + [qs[|qs| - 1]];
        forall i, j | 0 <= i < j < |r|
          ensures r[i].id < r[j].id
        {
          if j == |r| - 1 {
            assert r[i] in qi;
            var k :| 0 <= k < |qi| && qi[k] == r[i];
            assert qs[k].id < qs[|qs| - 1].id;
          } else {
            assert r[i] == ri[i] && r[j] == ri[j];
          }
        }
      } else {
        SubseqKeepsIdsIncreasing(r, qi);
      }
    }
  }

  /** The quotes whose author field equals `author` (case-sensitive, exact), in
      insertion order; the store is not changed. */
  function GetQuotesByAuthor(s: Store, author: string): (r: seq<Quote>)
    ensures forall q :: q in r <==> q in s.quotes && q.author == author
    ensures forall q :: multiset(r)[q] == if q.author == author then multiset(s.quotes)[q] else 0
    ensures IsSubseq(r, s.quotes)
    ensures Valid(s) ==> IdsIncreasing(r)
  {
    FilterIsSubseq(s.quotes, author);
    var r := FilterByAuthor(s.quotes, author);
    assert Valid(s) ==> IdsIncreasing(r) by {
      if Valid(s) { SubseqKeepsIdsIncreasing(r, s.quotes); }
    }
    r
  }

  /** The first index at or after `from` whose quote has `id`: the range loop of the delete. */
  function FindId(qs: seq<Quote>, id: int, from: nat): (r: Option<nat>)
    requires from <= |qs|
    ensures r.Some? ==> from <= r.value < |qs| && qs[r.value].id == id
    ensures r.Some? ==> forall j :: from <= j < r.value ==> qs[j].id != id
    ensures r.None? <==> forall j :: from <= j < |qs| ==> qs[j].id != id
    decreases |qs| - from
  {
    if from == |qs| then None
    else if qs[from].id == id then Some(from)
    else FindId(qs, id, from + 1)
  }

  /** Removing one element of a sequence with increasing ids keeps them increasing. */
  lemma RemoveKeepsIdsIncreasing(qs: seq<Quote>, i: nat)
    requires i < |qs|
    requires IdsIncreasing(qs)
    ensures IdsIncreasing(qs[..i] + qs[i + 1..])
  {
    var r := qs[..i] + qs[i + 1..];
    forall a, b | 0 <= a < b < |r|
      ensures r[a].id < r[b].id
    {
      var a' := if a < i then a else a + 1;
      var b' := if b < i then b else b + 1;
      assert r[a] == qs[a'] && r[b] == qs[b'];
    }
  }

  /** Removing the one quote with `id` from a sequence with increasing ids removes
      exactly the quotes with that id and keeps the ids increasing. */
  lemma RemoveUnique(qs: seq<Quote>, id: int, i: nat)
    requires i < |qs| && qs[i].id == id
    requires IdsIncreasing(qs)
    ensures IdsIncreasing(qs[..i] + qs[i + 1..])
    ensures forall q :: q in qs[..i] + qs[i + 1..] <==> q in qs && q.id != id
  {
    var rest := qs[..i] + qs[i + 1..];
    RemoveKeepsIdsIncreasing(qs, i);
    assert forall k :: 0 <= k < |rest| ==> rest[k] == qs[if k < i then k else k + 1];
    forall k | 0 <= k < |qs| && k != i
      ensures qs[k].id != id
    {
      IdsIncreasingUnique(qs, k, i);
    }
    forall q | q in qs && q.id != id
      ensures q in rest
    {
      var k :| 0 <= k < |qs| && qs[k] == q;
      assert rest[if k < i then k else k - 1] == q;
    }
  }

  /** Removing the quote at `i`, which has `id`, from a valid store gives a valid store
      holding exactly the other quotes. */
  lemma RemoveAtKeepsValid(s: Store, id: int, i: nat)
    requires i < |s.quotes| && s.quotes[i].id == id
    ensures var r := Store(s.quotes[..i] + s.quotes[i + 1..], s.nextId);
            Valid(s) ==> && Valid(r) && !HasId(r.quotes, id)
                         && forall q :: q in r.quotes <==> q in s.quotes && q.id != id
  {
    if Valid(s) {
      var qs := s.quotes;
      var rest := qs[..i] + qs[i + 1..];
      RemoveUnique(qs, id, i);
      forall k | 0 <= k < |rest|
        ensures 1 <= rest[k].id < s.nextId
      {
        assert rest[k] == qs[if k < i then k else k + 1];
      }
      assert !HasId(rest, id) by {
        forall k | 0 <= k < |rest|
          ensures rest[k].id != id
        {
          assert rest[k] in rest;
        }
      }
    }
  }

  /** Removes the quote with `id` and reports whether there was one. The other quotes
      keep their relative order, and the id counter never moves back, so a deleted id
      is never handed out again. */
  function DeleteQuote(s: Store, id: int): (r: (Store, bool))
    ensures r.1 <==> HasId(s.quotes, id)
    ensures r.0.nextId == s.nextId
    ensures !r.1 ==> r.0 == s
    ensures r.1 ==> exists i :: 0 <= i < |s.quotes| && s.quotes[i].id == id
                                && r.0.quotes == s.quotes[..i] + s.quotes[i + 1..]
    ensures Valid(s) ==> Valid(r.0) && !HasId(r.0.quotes, id)
    ensures Valid(s) ==> forall q :: q in r.0.quotes <==> q in s.quotes && q.id != id
  {
    match FindId(s.quotes, id, 0)
    case None => (s, false)
    case Some(i) =>
      RemoveAtKeepsValid(s, id, i);
      (Store(s.quotes[..i] + s.quotes[i + 1..], s.nextId), true)
  }

  /* ---------------------------------------------------------------------------
     Properties relating several operations
     ------------------------------------------------------------------------- */

  /** Deleting the quote just added gives back the old quotes; only the counter moved. */
  lemma AddThenDelete(s: Store, q: Quote)
    requires Valid(s)
    ensures var (s1, id) := AddQuote(s, q);
            DeleteQuote(s1, id) == (Store(s.quotes, s.nextId + 1), true)
  {
    var (s1, id) := AddQuote(s, q);
    var n := |s.quotes|;
    assert s1.quotes[n].id == id;
    assert forall j :: 0 <= j < n ==> s1.quotes[j].id != id;
    var f := FindId(s1.quotes, id, 0);
    assert f == Some(n);
    assert s1.quotes[..n] + s1.quotes[n + 1..] == s.quotes;
  }

  /** A second delete of the same id finds nothing and changes nothing. */
  lemma DeleteTwice(s: Store, id: int)
    requires Valid(s)
    ensures var s1 := DeleteQuote(s, id).0;
            DeleteQuote(s1, id) == (s1, false)
  {
  }

  /** A quote added under an author is returned by that author's filter, as the last match. */
  lemma AddThenFilter(s: Store, q: Quote)
    ensures var (s1, id) := AddQuote(s, q);
            GetQuotesByAuthor(s1, q.author)
              == GetQuotesByAuthor(s, q.author) + [Quote(id, q.author, q.text)]
  {
    var (s1, id) := AddQuote(s, q);
    assert s1.quotes[..|s1.quotes| - 1] == s.quotes;
  }

  /* ---------------------------------------------------------------------------
     Traces of store operations
     ------------------------------------------------------------------------- */

  /** One call on the store, as the handlers issue them. */
  datatype Op = Add(quote: Quote) | ListAll | ListByAuthor(author: string) | Delete(id: int)

  /** One operation: the new store, and the id assigned (a one-element list for `Add`). */
  function Step(s: Store, op: Op): (r: (Store, seq<int>))
    ensures Valid(s) ==> Valid(r.0)
    ensures r.0.nextId == s.nextId + |r.1|
    ensures op.Add? ==> r.1 == [s.nextId]
    ensures !op.Add? ==> r.1 == []
    ensures op.ListAll? || op.ListByAuthor? ==> r.0 == s
  {
    match op
    case Add(q) => var (s1, id) := AddQuote(s, q); (s1, [id])
    case ListAll => (s, [])
    case ListByAuthor(_) => (s, [])
    case Delete(id) => (DeleteQuote(s, id).0, [])
  }

  /** Runs `ops` in order; returns the final store and the ids assigned along the way. */
  function Run(s: Store, ops: seq<Op>): (r: (Store, seq<int>))
    ensures Valid(s) ==> Valid(r.0)
    ensures s.nextId <= r.0.nextId
    ensures forall k :: 0 <= k < |r.1| ==> s.nextId <= r.1[k] < r.0.nextId
    ensures forall k, l :: 0 <= k < l < |r.1| ==> r.1[k] < r.1[l]
    decreases |ops|
  {
    if |ops| == 0 then (s, [])
    else
      var (s1, ids1) := Step(s, ops[0]);
      var (s2, ids2) := Run(s1, ops[1..]);
      (s2, ids1 + ids2)
  }

  /** Ids are never reused: an id that existed before (stored, or already deleted,
      since it lay below the counter) is never assigned by a later `Add`, whatever
      happened in between. */
  lemma IdsNeverReused(s: Store, ops: seq<Op>, old_id: int)
    requires old_id < s.nextId
    ensures forall k :: 0 <= k < |Run(s, ops).1| ==> Run(s, ops).1[k] != old_id
  {
  }

  /** Adding quotes one after another assigns consecutive ids from the counter, in call
      order, and appends the quotes in that order. */
  lemma {:induction false} SequentialIds(s: Store, ops: seq<Op>)
    requires forall k :: 0 <= k < |ops| ==> ops[k].Add?
    ensures |Run(s, ops).1| == |ops|
    ensures forall k :: 0 <= k < |ops| ==> Run(s, ops).1[k] == s.nextId + k
    ensures |Run(s, ops).0.quotes| == |s.quotes| + |ops|
    ensures Run(s, ops).0.quotes[..|s.quotes|] == s.quotes
    ensures forall k :: 0 <= k < |ops| ==>
              Run(s, ops).0.quotes[|s.quotes| + k]
                == Quote(s.nextId + k, ops[k].quote.author, ops[k].quote.text)
    decreases |ops|
  {
    if |ops| > 0 {
      var (s1, ids1) := Step(s, ops[0]);
      SequentialIds(s1, ops[1..]);
      var (s2, ids2) := Run(s1, ops[1..]);
      assert Run(s, ops) == (s2, ids1 + ids2);
      var n := |s.quotes|;
      assert s1.quotes[..n] == s.quotes;
      assert s2.quotes[..n + 1] == s1.quotes;
      assert s2.quotes[..n] == s1.quotes[..n];
      forall k | 0 <= k < |ops|
        ensures s2.quotes[n + k] == Quote(s.nextId + k, ops[k].quote.author, ops[k].quote.text)
      {
        if k == 0 {
          assert s2.quotes[n] == s1.quotes[n];
        } else {
          assert ops[1..][k - 1] == ops[k];
        }
      }
    }
  }

  /** From a fresh store, N additions are assigned ids 1..N in call order. */
  lemma FreshIdsStartAtOne(ops: seq<Op>)
    requires forall k :: 0 <= k < |ops| ==> ops[k].Add?
    ensures |Run(NewMemoryStorage(), ops).1| == |ops|
    ensures |Run(NewMemoryStorage(), ops).0.quotes| == |ops|
    ensures forall k :: 0 <= k < |ops| ==> Run(NewMemoryStorage(), ops).1[k] == k + 1
    ensures forall k :: 0 <= k < |ops| ==> Run(NewMemoryStorage(), ops).0.quotes[k].id == k + 1
  {
    var s := NewMemoryStorage();
    SequentialIds(s, ops);
    forall k | 0 <= k < |ops|
      ensures Run(s, ops).0.quotes[k].id == k + 1
    {
      assert Run(s, ops).0.quotes[|s.quotes| + k]
          == Quote(s.nextId + k, ops[k].quote.author, ops[k].quote.text);
    }
  }
}
