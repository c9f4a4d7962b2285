/**
 * A loop that appends a value for some elements of a list and skips the
 * others computes the `Some` values of a list of options. These are the
 * facts about that shape which the parsers share.
 */
module OptionSeqs {
  import opened Wrappers
  import opened Seqs

  /** `[f(x) for x in xs]`. */
  function MapSeq<A, B>(f: A -> B, xs: seq<A>): (r: seq<B>)
    ensures |r| == |xs|
  {
    if xs == [] then [] else MapSeq(f, xs[..|xs| - 1]) + [f(xs[|xs| - 1])]
  }

  /** One more element is mapped at the end. */
  lemma MapSeqSnoc<A, B>(f: A -> B, xs: seq<A>, x: A)
    ensures MapSeq(f, xs + [x]) == MapSeq(f, xs) + [f(x)]
  {
    SnocFront(xs, x);
  }

  /** The i-th element of the mapped list is `f` of the i-th element. */
  lemma {:induction false} MapSeqAt<A, B>(f: A -> B, xs: seq<A>)
    ensures forall i :: 0 <= i < |xs| ==> MapSeq(f, xs)[i] == f(xs[i])
  {
    if xs != [] {
      MapSeqAt(f, xs[..|xs| - 1]);
    }
  }

  /** The values of the `Some` elements, in order. */
  function Somes<T>(xs: seq<Option<T>>): (r: seq<T>)
    ensures |r| <= |xs|
  {
    if xs == [] then []
    else Somes(xs[..|xs| - 1]) + (if xs[|xs| - 1].Some? then [xs[|xs| - 1].value] else [])
  }

  /** The positions of the `Some` elements, in order. */
  function SomeIndices<T>(xs: seq<Option<T>>): seq<nat> {
    if xs == [] then []
    else SomeIndices(xs[..|xs| - 1]) + (if xs[|xs| - 1].Some? then [|xs| - 1] else [])
  }

  /** One more element: its value is appended when it has one. */
  lemma SomesSnoc<T>(xs: seq<Option<T>>, x: Option<T>)
    ensures Somes(xs + [x]) == Somes(xs) + (if x.Some? then [x.value] else [])
  {
    SnocFront(xs, x);
  }

  /** A prefix one longer adds the value of the next element, when it has one. */
  lemma SomesTakeStep<T>(xs: seq<Option<T>>, i: nat)
    requires i < |xs|
    ensures Somes(xs[..i + 1]) == Somes(xs[..i]) + (if xs[i].Some? then [xs[i].value] else [])
  {
    TakeSnoc(xs, i);
    SomesSnoc(xs[..i], xs[i]);
  }

  /** The k-th value is the value of the element at the k-th position. */
  lemma {:induction false} SomeIndicesAt<T>(xs: seq<Option<T>>)
    ensures |SomeIndices(xs)| == |Somes(xs)|
    ensures forall k :: 0 <= k < |Somes(xs)| ==>
              SomeIndices(xs)[k] < |xs| && xs[SomeIndices(xs)[k]] == Some(Somes(xs)[k])
  {
    if xs != [] {
      SomeIndicesAt(xs[..|xs| - 1]);
    }
  }

  /** The positions increase and lie inside the list. */
  lemma {:induction false} SomeIndicesIncreasing<T>(xs: seq<Option<T>>)
    ensures forall k :: 0 <= k < |SomeIndices(xs)| ==> SomeIndices(xs)[k] < |xs|
    ensures forall k, l :: 0 <= k < l < |SomeIndices(xs)| ==> SomeIndices(xs)[k] < SomeIndices(xs)[l]
  {
    if xs != [] {
      SomeIndicesIncreasing(xs[..|xs| - 1]);
    }
  }

  /** A value is among the values exactly when some element carries it. */
  lemma {:induction false} InSomes<T>(xs: seq<Option<T>>, v: T)
    ensures v in Somes(xs) <==> Some(v) in xs
  {
    if xs != [] {
      var init := xs[..|xs| - 1];
      InSomes(init, v);
      FrontLast(xs);
    }
  }

  /** Two parallel lists of pairs: the i-th pair holds the i-th element of each. */
  function Zip<A, B>(xs: seq<A>, ys: seq<B>): (r: seq<(A, B)>)
    requires |xs| == |ys|
    ensures |r| == |xs|
  {
    if xs == [] then [] else Zip(xs[..|xs| - 1], ys[..|ys| - 1]) + [(xs[|xs| - 1], ys[|ys| - 1])]
  }

  /** Appending to both lists appends one pair. */
  lemma ZipSnoc<A, B>(xs: seq<A>, ys: seq<B>, x: A, y: B)
    requires |xs| == |ys|
    ensures Zip(xs + [x], ys + [y]) == Zip(xs, ys) + [(x, y)]
  {
    SnocFront(xs, x);
    SnocFront(ys, y);
  }

  /** The i-th pair is made of the i-th elements. */
  lemma {:induction false} ZipAt<A, B>(xs: seq<A>, ys: seq<B>)
    requires |xs| == |ys|
    ensures forall i :: 0 <= i < |xs| ==> Zip(xs, ys)[i] == (xs[i], ys[i])
  {
    if xs != [] {
      ZipAt(xs[..|xs| - 1], ys[..|ys| - 1]);
    }
  }
}
