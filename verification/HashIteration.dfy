// Iterators, sys/container/iterator.c, over the hash table, sys/container/hashset.c.
// An iterator fetches ten answers at a time, and a fetch stops at a NULL answer: at the
// end of the table, or at the key NULL.

module HashIteration {
  import opened HashSet

  const BATCH: nat := 10

  function Answer(b: Bucket, wantObject: bool): Pointer {
    if wantObject then b.data else b.key
  }

  function Answers(bs: seq<Bucket>, wantObject: bool): (r: seq<Pointer>)
    ensures |r| == |bs|
  {
    seq(|bs|, k requires 0 <= k < |bs| => Answer(bs[k], wantObject))
  }

  // How many answers come before the first NULL, up to a limit.
  function Length(answers: seq<Pointer>, limit: nat): (n: nat)
    ensures n <= |answers| && n <= limit
    ensures forall k :: 0 <= k < n ==> answers[k] != NULL
    ensures n < limit && n < |answers| ==> answers[n] == NULL
    decreases limit
  {
    if limit == 0 || answers == [] || answers[0] == NULL then 0 else 1 + Length(answers[1..], limit - 1)
  }

  // What a fetch leaves: a NULL that stopped it is used up.
  function Remaining(answers: seq<Pointer>, limit: nat): (r: seq<Pointer>)
    ensures |r| <= |answers| && (answers != [] && limit > 0 ==> |r| < |answers|)
  {
    var n := Length(answers, limit);
    if n < limit && n < |answers| then answers[n + 1..] else answers[n..]
  }

  // What a loop over the iterator meets until it answers NULL.
  function Met(answers: seq<Pointer>, limit: nat): seq<Pointer>
    requires limit > 0
    decreases |answers|
  {
    var n := Length(answers, limit);
    if n == 0 then [] else answers[..n] + Met(Remaining(answers, limit), limit)
  }

  lemma {:induction false} MetNeverNull(answers: seq<Pointer>, limit: nat)
    requires limit > 0
    ensures NULL !in Met(answers, limit)
    decreases |answers|
  {
    if Length(answers, limit) > 0 {
      MetNeverNull(Remaining(answers, limit), limit);
    }
  }

  lemma LengthFull(answers: seq<Pointer>, limit: nat)
    requires NULL !in answers
    ensures Length(answers, limit) == if limit < |answers| then limit else |answers|
  {
    var n := Length(answers, limit);
    assert n < |answers| ==> answers[n] in answers;
  }

  lemma {:induction false} MetAll(answers: seq<Pointer>, limit: nat)
    requires limit > 0 && NULL !in answers
    ensures Met(answers, limit) == answers
    decreases |answers|
  {
    if answers != [] {
      var n := Length(answers, limit);
      LengthFull(answers, limit);
      MetAll(answers[n..], limit);
      calc {
        Met(answers, limit);
        answers[..n] + Met(answers[n..], limit);
        answers[..n] + answers[n..];
        answers;
      }
    }
  }

  // A loop meets every answer if and only if none of them is NULL.
  lemma MetExactly(answers: seq<Pointer>, limit: nat)
    requires limit > 0
    ensures Met(answers, limit) == answers <==> NULL !in answers
  {
    MetNeverNull(answers, limit);
    if NULL !in answers { MetAll(answers, limit); }
  }

  // ---- What a whole iteration over a table meets ----

  lemma {:induction false} HaveObjects(bs: seq<Bucket>)
    ensures forall k :: 0 <= k < |WithObject(bs)| ==> WithObject(bs)[k].data != NULL
  {
    if bs != [] { HaveObjects(bs[1..]); }
  }

  // Over an undisturbed table, objects are met completely; keys if and only if nothing
  // is stored under NULL. What is met then is every pair of the map exactly once.
  lemma IterationComplete(t: Table, m: map<Pointer, Pointer>, f: Functions, wantObject: bool)
    requires Refines(t, m, f)
    ensures var bs := WithObject(Flatten(t.chains));
      && (Met(Answers(bs, wantObject), BATCH) == Answers(bs, wantObject) <==> wantObject || NULL !in m)
      && forall b :: multiset(bs)[b] == Holds(m, b)
  {
    var bs := WithObject(Flatten(t.chains));
    forall b ensures multiset(bs)[b] == Holds(m, b) {
      IterationMeetsAll(t, m, f, b);
    }
    MetExactly(Answers(bs, wantObject), BATCH);
    HaveObjects(Flatten(t.chains));
    if !wantObject { NullKeyMet(bs, m); }
  }

  lemma NullKeyMet(bs: seq<Bucket>, m: map<Pointer, Pointer>)
    requires forall b :: multiset(bs)[b] == Holds(m, b)
    ensures NULL in Answers(bs, false) <==> NULL in m
  {
    if NULL in m {
      var b := Bucket(NULL, m[NULL]);
      assert multiset(bs)[b] == 1;
      var k :| 0 <= k < |bs| && bs[k] == b;
      assert Answers(bs, false)[k] == NULL;
    }
    if k :| 0 <= k < |bs| && Answers(bs, false)[k] == NULL {
      assert bs[k] in multiset(bs);
    }
  }

  // ---- The iterator ----

  lemma EmptyPlus<T>(s: seq<T>)
    ensures [] + s == s
  {
  }

  lemma TakeFirst<T>(a: seq<T>, b: seq<T>)
    requires a != []
    ensures (a + b)[0] == a[0] && (a + b)[1..] == a[1..] + b
  {
  }

  lemma Append<T>(a: seq<T>, c: seq<T>)
    ensures c == [] ==> a + c == a
    ensures c != [] ==> a + [c[0]] + c[1..] == a + c
  {
  }

  lemma AnswersTail(bs: seq<Bucket>, wantObject: bool)
    ensures bs != [] ==> Answers(bs, wantObject)[0] == Answer(bs[0], wantObject)
    ensures bs != [] ==> Answers(bs[1..], wantObject) == Answers(bs, wantObject)[1..]
  {
  }

  // The first i answers have been fetched.
  ghost predicate Fetching(answers: seq<Pointer>, max: nat, i: nat, objects: seq<Pointer>, rest: seq<Pointer>) {
    && i <= max && i <= |answers| && objects == answers[..i] && rest == answers[i..]
    && Length(answers, max) == i + Length(rest, max - i)
  }

  lemma FetchMore(answers: seq<Pointer>, max: nat, i: nat, objects: seq<Pointer>, rest: seq<Pointer>)
    requires Fetching(answers, max, i, objects, rest) && i < max && rest != [] && rest[0] != NULL
    ensures Fetching(answers, max, i + 1, objects + [rest[0]], rest[1..])
  {
    assert rest[1..] == answers[i + 1..];
  }

  lemma FetchStops(answers: seq<Pointer>, max: nat, i: nat, objects: seq<Pointer>, rest: seq<Pointer>)
    requires Fetching(answers, max, i, objects, rest) && (i == max || rest == [] || rest[0] == NULL)
    ensures objects == answers[..Length(answers, max)]
    ensures Remaining(answers, max) == if i < max && rest != [] then rest[1..] else rest
  {
    assert i < |answers| ==> answers[i + 1..] == rest[1..];
  }

  // A fetch gives the next part of what is met.
  lemma FetchedMet(answers: seq<Pointer>, limit: nat, objects: seq<Pointer>, rest: seq<Pointer>)
    requires limit > 0 && objects == answers[..Length(answers, limit)] && rest == Remaining(answers, limit)
    ensures Met(answers, limit) == if objects == [] then [] else objects + Met(rest, limit)
  {
  }

  class BatchIterator {
    const source: TableIterator
    const wantObject: bool
    var objects: seq<Pointer>

    ghost predicate Valid()
      reads this, source, source.table
    {
      source.Valid() && NULL !in objects
    }

    // What the client is still to get before the first NULL.
    ghost function Coming(): seq<Pointer>
      requires Valid()
      reads this, source, source.table, source.table.buckets
    {
      objects + Met(Answers(source.Pending(), wantObject), BATCH)
    }

    // hashset_iterator() and hashset_keyIterator().
    constructor (table: HashTable, wantObject: bool)
      requires table.Valid()
      ensures Valid() && fresh(source) && source.table == table && this.wantObject == wantObject
      ensures Coming() == Met(Answers(WithObject(Flatten(table.Value().chains)), wantObject), BATCH)
    {
      var s := new TableIterator(table);
      source, this.wantObject, objects := s, wantObject, [];
      new;
      EmptyPlus(Met(Answers(source.Pending(), wantObject), BATCH));
    }

    // hashset_iteratorNextObject().
    method Fetch(max: nat)
      requires Valid()
      modifies this, source
      ensures Valid()
      ensures var answers := old(Answers(source.Pending(), wantObject));
        && objects == answers[..Length(answers, max)]
        && Answers(source.Pending(), wantObject) == Remaining(answers, max)
    {
      ghost var answers := Answers(source.Pending(), wantObject);
      objects := [];
      var i: nat := 0;
      while i < max
        invariant Valid() && Fetching(answers, max, i, objects, Answers(source.Pending(), wantObject))
      {
        ghost var rest := Answers(source.Pending(), wantObject);
        AnswersTail(source.Pending(), wantObject);
        var answer := source.NextObject(wantObject);
        if answer == NULL {
          FetchStops(answers, max, i, objects, rest);
          return;
        }
        FetchMore(answers, max, i, objects, rest);
        objects := objects + [answer];
        i := i + 1;
      }
      FetchStops(answers, max, i, objects, Answers(source.Pending(), wantObject));
    }

    // iterator_nextObject().
    method NextObject() returns (p: Pointer)
      requires Valid()
      modifies this, source
      ensures Valid()
      ensures old(Coming()) == [] ==> p == NULL
      ensures old(Coming()) != [] ==> p == old(Coming())[0] != NULL && Coming() == old(Coming())[1..]
    {
      if objects == [] {
        ghost var answers := Answers(source.Pending(), wantObject);
        EmptyPlus(Met(answers, BATCH));
        Fetch(BATCH);
        FetchedMet(answers, BATCH, objects, Answers(source.Pending(), wantObject));
        if objects == [] {
          return NULL;
        }
      }
      p := objects[0];
      assert p in objects;
      TakeFirst(objects, Met(Answers(source.Pending(), wantObject), BATCH));
      objects := objects[1..];
    }

    // The loop of a client.
    method Collect() returns (all: seq<Pointer>)
      requires Valid()
      modifies this, source
      ensures all == old(Coming())
    {
      all := [];
      ghost var coming := Coming();
      EmptyPlus(coming);
      var p := NextObject();
      Append(all, coming);
      while p != NULL
        invariant Valid()
        invariant p == NULL ==> all == coming
        invariant p != NULL ==> all + [p] + Coming() == coming
        decreases |coming| - |all|
      {
        all := all + [p];
        ghost var c := Coming();
        p := NextObject();
        Append(all, c);
      }
    }
  }
}
