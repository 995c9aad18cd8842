/** The `requireNonNull` helpers of util/. The five source files (for Reactor's `Mono` and
    `Flux`, RxJava's `Maybe`, `Single` and `Flowable`) differ only in the reactive type they
    return; with every reactive type read as a `Signal` they share this one definition, and
    the lemmas below state what each reactive type adds. */
module Preconditions {
  import opened Common
  import opened Reactive

  /** One argument: fail with a null-pointer error on null, otherwise emit the argument. */
  function RequireNonNull<T>(x: Nullable<T>): (r: Signal<T>)
    ensures r.Error? <==> x.Null?
    ensures r.Error? ==> r.failure == NullPointer
    ensures r.Complete? ==> r.items == [x.value]
  {
    if x.Null? then Error(NullPointer) else Just(x.value)
  }

  /** Two arguments: the zip of the two one-argument checks. */
  function RequireNonNull2<A, B>(a: Nullable<A>, b: Nullable<B>): (r: Signal<(A, B)>)
    ensures r.Error? <==> a.Null? || b.Null?
    ensures r.Error? ==> r.failure == NullPointer
    ensures r.Complete? ==> r.items == [(a.value, b.value)]
  {
    Zip2(RequireNonNull(a), RequireNonNull(b))
  }

  /** Three arguments: the zip of the three one-argument checks. */
  function RequireNonNull3<A, B, C>(a: Nullable<A>, b: Nullable<B>, c: Nullable<C>): (r: Signal<(A, B, C)>)
    ensures r.Error? <==> a.Null? || b.Null? || c.Null?
    ensures r.Error? ==> r.failure == NullPointer
    ensures r.Complete? ==> r.items == [(a.value, b.value, c.value)]
  {
    Zip3(RequireNonNull(a), RequireNonNull(b), RequireNonNull(c))
  }

  /** As a `Single` the checks are well formed: every arity either fails or emits exactly one
      value, and that value is the arguments in order. */
  lemma SingleShaped<A, B, C>(a: Nullable<A>, b: Nullable<B>, c: Nullable<C>)
    ensures ExactlyOne(RequireNonNull(a)) && ExactlyOne(RequireNonNull2(a, b))
    ensures ExactlyOne(RequireNonNull3(a, b, c))
    ensures a.Ref? ==> RequireNonNull(a) == Just(a.value)
    ensures a.Ref? && b.Ref? ==> RequireNonNull2(a, b) == Just((a.value, b.value))
    ensures a.Ref? && b.Ref? && c.Ref? ==> RequireNonNull3(a, b, c) == Just((a.value, b.value, c.value))
  {
  }

  /** As a `Maybe` (or `Mono`) the checks never complete empty: a null gives an error, not an
      absent value, so a caller's `flatMap` runs exactly when every argument is present. */
  lemma NeverEmpty<A, B, C>(a: Nullable<A>, b: Nullable<B>, c: Nullable<C>)
    ensures AtMostOne(RequireNonNull(a)) && RequireNonNull(a) != Empty()
    ensures AtMostOne(RequireNonNull2(a, b)) && RequireNonNull2(a, b) != Empty()
    ensures AtMostOne(RequireNonNull3(a, b, c)) && RequireNonNull3(a, b, c) != Empty()
  {
  }

  /** The cases the Flowable tests enumerate: every combination with at least one null fails
      with the same null-pointer error, whichever argument it was. */
  lemma EveryNullCombinationFails<A, B, C>(x: A, y: B)
    ensures RequireNonNull2(Nullable<A>.Null, Nullable<B>.Null) == Error(NullPointer)
    ensures RequireNonNull2(Ref(x), Nullable<B>.Null) == Error(NullPointer)
    ensures RequireNonNull2(Nullable<A>.Null, Ref(y)) == Error(NullPointer)
    ensures forall a: Nullable<A>, b: Nullable<B>, c: Nullable<C> ::
              a.Null? || b.Null? || c.Null? ==> RequireNonNull3(a, b, c) == Error(NullPointer)
  {
  }
}
