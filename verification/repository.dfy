/** The storage the services talk to, in place of the Spring Data repositories: the stored
    records keyed by id, plus the order in which they were first stored, which is the order
    a paged query returns them in. */
module Repository {
  import opened Common
  import opened Reactive
  import opened Paging

  /** No id occurs twice. */
  predicate Distinct(xs: seq<Uuid>) {
    forall i, j :: 0 <= i < j < |xs| ==> xs[i] != xs[j]
  }

  datatype Store<E> = Store(rows: map<Uuid, E>, order: seq<Uuid>) {
    /** The order lists every stored id exactly once. */
    ghost predicate Valid() {
      Distinct(order) && forall id :: id in rows <==> id in order
    }
  }

  type ValidStore<E> = s: Store<E> | s.Valid() witness Store(map[], [])

  /** Every record is stored under its own id, read by `idOf`. */
  ghost predicate KeyedById<E>(s: Store<E>, idOf: E -> Uuid) {
    forall k :: k in s.rows ==> idOf(s.rows[k]) == k
  }

  /** What a service operation leaves behind: the store after it, and what it signalled. */
  datatype Step<S, T> = Step(store: S, reply: Signal<T>)

  /** Dropping the first id of a sequence without repetitions leaves one without repetitions
      that does not contain that id. */
  lemma DistinctTail(xs: seq<Uuid>)
    requires xs != []
    ensures Distinct(xs) ==> Distinct(xs[1..]) && xs[0] !in xs[1..]
  {
    if Distinct(xs) {
      var tail := xs[1..];
      forall i, j | 0 <= i < j < |tail| ensures tail[i] != tail[j] {
        assert tail[i] == xs[i + 1] && tail[j] == xs[j + 1];
      }
      forall k | 0 <= k < |tail| ensures tail[k] != xs[0] {
        assert tail[k] == xs[k + 1];
      }
    }
  }

  /** `xs` with every occurrence of `x` removed, in the same order. */
  function Without(xs: seq<Uuid>, x: Uuid): (r: seq<Uuid>)
    ensures forall y :: y in r <==> y in xs && y != x
    ensures Distinct(xs) ==> Distinct(r)
    ensures x !in xs ==> r == xs
  {
    if xs == [] then []
    else if xs[0] == x then Without(xs[1..], x)
    else
      DistinctTail(xs);
      [xs[0]] + Without(xs[1..], x)
  }

  /** A sequence without repetitions has as many elements as the set of its elements. */
  lemma {:induction false} DistinctCardinality(xs: seq<Uuid>)
    requires Distinct(xs)
    ensures |set y | y in xs| == |xs|
  {
    if xs != [] {
      var tail := xs[1..];
      DistinctTail(xs);
      DistinctCardinality(tail);
      assert (set y | y in xs) == {xs[0]} + (set y | y in tail) by {
        assert xs == [xs[0]] + tail;
      }
    }
  }

  /** Removing an id that occurs once in a sequence without repetitions shortens it by one. */
  lemma {:induction false} WithoutLength(xs: seq<Uuid>, x: Uuid)
    requires Distinct(xs)
    ensures x in xs ==> |Without(xs, x)| == |xs| - 1
  {
    if xs != [] {
      DistinctTail(xs);
      WithoutLength(xs[1..], x);
    }
  }

  /** Removing an id that was just appended, and occurred nowhere before, gives back the
      sequence it was appended to. */
  lemma {:induction false} WithoutAppended(xs: seq<Uuid>, x: Uuid)
    requires x !in xs
    ensures Without(xs + [x], x) == xs
  {
    if xs != [] {
      assert (xs + [x])[1..] == xs[1..] + [x];
      WithoutAppended(xs[1..], x);
    }
  }

  /** `count()`: the number of stored records, which is also the length of the order. */
  function Count<E>(s: ValidStore<E>): (n: nat)
    ensures n == |s.order|
  {
    assert s.rows.Keys == set y | y in s.order;
    DistinctCardinality(s.order);
    |s.rows|
  }

  /** `findById`: the stored record, or nothing. */
  function FindById<E>(s: ValidStore<E>, id: Uuid): (r: Option<E>)
    ensures r.Some? <==> id in s.order
    ensures r.Some? ==> r.value == s.rows[id]
  {
    if id in s.rows then Some(s.rows[id]) else None
  }

  /** `save`: an upsert. A new id goes to the end of the order; a known id keeps its place. */
  function Save<E>(s: ValidStore<E>, id: Uuid, e: E): (r: ValidStore<E>)
    ensures r.rows == s.rows[id := e]
    ensures id in s.rows ==> r.order == s.order
    ensures id !in s.rows ==> r.order == s.order + [id] && Count(r) == Count(s) + 1
  {
    if id in s.rows then Store(s.rows[id := e], s.order)
    else
      var order := s.order + [id];
      assert Distinct(order) by {
        forall i, j | 0 <= i < j < |order| ensures order[i] != order[j] {
          if j == |s.order| {
            assert order[i] == s.order[i];
            assert s.order[i] in s.rows;
          }
        }
      }
      Store(s.rows[id := e], order)
  }

  /** `deleteById`: removes the id if present and changes nothing otherwise. */
  function DeleteById<E>(s: ValidStore<E>, id: Uuid): (r: ValidStore<E>)
    ensures r.rows == s.rows - {id}
    ensures id !in s.rows ==> r == s
    ensures r.order == Without(s.order, id)
    ensures id in s.rows ==> |r.order| == |s.order| - 1
  {
    WithoutLength(s.order, id);
    Store(s.rows - {id}, Without(s.order, id))
  }

  /** `findBy(pageable)`: the records of the requested page, in storage order. */
  function FindBy<E>(s: ValidStore<E>, pageable: Pageable): (r: seq<E>)
    ensures |r| == SliceLength(|s.order|, pageable.Offset(), pageable.pageSize)
    ensures forall i :: 0 <= i < |r| ==> r[i] == s.rows[s.order[pageable.Offset() + i]]
  {
    var n := SliceLength(|s.order|, pageable.Offset(), pageable.pageSize);
    seq(n, i requires 0 <= i < n => s.rows[s.order[pageable.Offset() + i]])
  }

  /** Paging covers the store: the record at storage position `k` is on page `k / size`, at
      position `k % size` of it, and that page is one of the `TotalPages` pages the count
      gives. */
  lemma EveryRecordOnItsPage<E>(s: ValidStore<E>, size: PageSize, k: nat)
    requires k < Count(s)
    ensures var pageable := Pageable(k / size, size);
            && k % size < |FindBy(s, pageable)|
            && FindBy(s, pageable)[k % size] == s.rows[s.order[k]]
            && k / size < NewPage(FindBy(s, pageable), pageable, Count(s)).TotalPages()
  {
    var pageable := Pageable(k / size, size);
    var q, m, count := k / size, k % size, Count(s);
    assert k == q * size + m;
    assert pageable.Offset() == q * size;
    ConsistentSliceKeepsTotal(FindBy(s, pageable), pageable, count);
    CeilingAbove(k, count, size);
  }

  /** A position below `count` lies on a page below the ceiling of `count / size`. */
  lemma CeilingAbove(k: nat, count: nat, size: PageSize)
    requires k < count
    ensures k / size < (count + size - 1) / size
  {
    var q, c := k / size, (count + size - 1) / size;
    assert k == q * size + k % size;
    assert count + size - 1 == c * size + (count + size - 1) % size;
    assert (q + 1) * size <= count + size - 1;
    assert q * size < c * size;
  }

  /** Deleting a record that was just stored under a new id gives back the store as it was. */
  lemma SaveThenDeleteRestores<E>(s: ValidStore<E>, id: Uuid, e: E)
    requires id !in s.rows
    ensures DeleteById(Save(s, id, e), id) == s
  {
    WithoutAppended(s.order, id);
    assert s.rows[id := e] - {id} == s.rows;
  }

  /** Deleting twice is deleting once. */
  lemma DeleteIsIdempotent<E>(s: ValidStore<E>, id: Uuid)
    ensures DeleteById(DeleteById(s, id), id) == DeleteById(s, id)
  {
  }

  /** A saved record is found under its id, and every other id finds what it found before. */
  lemma SaveThenFind<E>(s: ValidStore<E>, id: Uuid, e: E, other: Uuid)
    ensures FindById(Save(s, id, e), id) == Some(e)
    ensures other != id ==> FindById(Save(s, id, e), other) == FindById(s, other)
  {
  }

  /** After a delete the id is not found, and every other id finds what it found before. */
  lemma DeleteThenFind<E>(s: ValidStore<E>, id: Uuid, other: Uuid)
    ensures FindById(DeleteById(s, id), id) == None
    ensures other != id ==> FindById(DeleteById(s, id), other) == FindById(s, other)
  {
  }
}
