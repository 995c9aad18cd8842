/** The reactive types of Reactor and RxJava (`Mono`, `Flux`, `Maybe`, `Single`, `Flowable`,
    `Completable`), reduced to what a finished pipeline produced. Scheduling, backpressure and
    concurrency are not modelled: a publisher either signalled an error or completed after
    emitting a finite sequence of items. */
module Reactive {
  import opened Common

  datatype Signal<+T> = Error(failure: Failure) | Complete(items: seq<T>)

  /** `Mono.just`, `Flux.just`, `Single.just`, ...: one item, then completion. */
  function Just<T>(x: T): Signal<T> {
    Complete([x])
  }

  /** `Mono.empty`, `Maybe.empty`, a completed `Completable`: no item, then completion. */
  function Empty<T>(): Signal<T> {
    Complete([])
  }

  /** The shape of a `Mono` or `Maybe`: at most one item. */
  predicate AtMostOne<T>(s: Signal<T>) {
    s.Complete? ==> |s.items| <= 1
  }

  /** The shape of a `Single`: exactly one item unless it fails. */
  predicate ExactlyOne<T>(s: Signal<T>) {
    s.Complete? ==> |s.items| == 1
  }

  function Min(a: nat, b: nat): nat {
    if a < b then a else b
  }

  /** Pairs items by position until the shorter source is exhausted, as `zip` does. */
  function ZipItems<A, B>(xs: seq<A>, ys: seq<B>): (r: seq<(A, B)>)
    ensures |r| == Min(|xs|, |ys|)
    ensures forall i :: 0 <= i < |r| ==> r[i] == (xs[i], ys[i])
  {
    if xs == [] || ys == [] then []
    else [(xs[0], ys[0])] + ZipItems(xs[1..], ys[1..])
  }

  /** Triples items by position until the shortest source is exhausted. */
  function ZipItems3<A, B, C>(xs: seq<A>, ys: seq<B>, zs: seq<C>): (r: seq<(A, B, C)>)
    ensures |r| == Min(Min(|xs|, |ys|), |zs|)
    ensures forall i :: 0 <= i < |r| ==> r[i] == (xs[i], ys[i], zs[i])
  {
    if xs == [] || ys == [] || zs == [] then []
    else [(xs[0], ys[0], zs[0])] + ZipItems3(xs[1..], ys[1..], zs[1..])
  }

  /** `zip` of two publishers whose sources each emit or fail: an error in either source is
      the error of the whole, and the first source's error is the one reported when both
      fail. A source that completes empty before a later one fails is read the same way,
      which is where this differs from Reactor (there the zip completes empty). */
  function Zip2<A, B>(a: Signal<A>, b: Signal<B>): (r: Signal<(A, B)>)
    ensures r.Error? <==> a.Error? || b.Error?
    ensures r.Error? ==> r.failure == if a.Error? then a.failure else b.failure
    ensures r.Complete? ==> |r.items| == Min(|a.items|, |b.items|)
    ensures r.Complete? ==> forall i :: 0 <= i < |r.items| ==> r.items[i] == (a.items[i], b.items[i])
  {
    match (a, b)
    case (Error(e), _) => Error(e)
    case (_, Error(e)) => Error(e)
    case (Complete(xs), Complete(ys)) => Complete(ZipItems(xs, ys))
  }

  /** `zip` of three publishers, read as `Zip2` is: the first failing source's error is the
      error of the whole, including after a source that completed empty. */
  function Zip3<A, B, C>(a: Signal<A>, b: Signal<B>, c: Signal<C>): (r: Signal<(A, B, C)>)
    ensures r.Error? <==> a.Error? || b.Error? || c.Error?
    ensures r.Error? ==> r.failure == if a.Error? then a.failure else if b.Error? then b.failure else c.failure
    ensures r.Complete? ==> |r.items| == Min(Min(|a.items|, |b.items|), |c.items|)
    ensures r.Complete? ==> forall i :: 0 <= i < |r.items| ==>
              r.items[i] == (a.items[i], b.items[i], c.items[i])
  {
    match (a, b, c)
    case (Error(e), _, _) => Error(e)
    case (_, Error(e), _) => Error(e)
    case (_, _, Error(e)) => Error(e)
    case (Complete(xs), Complete(ys), Complete(zs)) => Complete(ZipItems3(xs, ys, zs))
  }

  /** Applies `f` to every element of `xs`, keeping the order. */
  function MapSeq<T, U>(xs: seq<T>, f: T -> U): (r: seq<U>)
    ensures |r| == |xs|
    ensures forall i :: 0 <= i < |xs| ==> r[i] == f(xs[i])
  {
    seq(|xs|, i requires 0 <= i < |xs| => f(xs[i]))
  }

  /** `map` on a publisher: every item is transformed, an error passes through. */
  function Map<T, U>(s: Signal<T>, f: T -> U): (r: Signal<U>)
    ensures r.Error? <==> s.Error?
    ensures r.Error? ==> r.failure == s.failure
    ensures r.Complete? ==> r.items == MapSeq(s.items, f)
  {
    match s
    case Error(e) => Error(e)
    case Complete(xs) => Complete(MapSeq(xs, f))
  }

  /** Zipping two one-item publishers yields exactly one pair: the reason the two-argument
      preconditions emit a single tuple, whatever the reactive type. */
  lemma ZipOfSingles<A, B>(x: A, y: B)
    ensures Zip2(Just(x), Just(y)) == Just((x, y))
  {
    assert ZipItems([x], [y]) == [(x, y)];
  }
}
