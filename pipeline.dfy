/** Function composition and piping over a sequence of unary functions.

    `compose(...fns)` folds the functions with `reduceRight`, so the last
    function runs first; `pipe(...fns)` folds them with `reduce`, so the first
    function runs first. Both are modelled on `seq<T -> T>`; the reference
    definition of "apply right to left" is `Nested`.
 */
module Pipeline {

  /** `fs.reduceRight((y, f) => f(y), x)`: start from the last element and
      feed each result to the element before it. */
  function ReduceRight<T>(fs: seq<T -> T>, x: T): T
    decreases |fs|
  {
    if |fs| == 0 then x
    else ReduceRight(fs[..|fs| - 1], fs[|fs| - 1](x))
  }

  /** `fs.reduce((y, f) => f(y), x)`: start from the first element and feed
      each result to the element after it. */
  function Reduce<T>(fs: seq<T -> T>, x: T): T
    decreases |fs|
  {
    if |fs| == 0 then x
    else Reduce(fs[1..], fs[0](x))
  }

  /** The nested call `fs[0](fs[1](... fs[|fs| - 1](x)))`: the independent
      reference definition of right-to-left application. */
  function Nested<T>(fs: seq<T -> T>, x: T): T
    decreases |fs|
  {
    if |fs| == 0 then x
    else fs[0](Nested(fs[1..], x))
  }

  /** The elements of `s` in the opposite order. */
  function Reversed<T>(s: seq<T>): (r: seq<T>)
    ensures |r| == |s|
    ensures forall i :: 0 <= i < |s| ==> r[i] == s[|s| - 1 - i]
    decreases |s|
  {
    if |s| == 0 then []
    else Reversed(s[1..]) + [s[0]]
  }

  /** `compose(...fns)`: the returned function applies `fs` right to left. */
  function Compose<T(!new)>(fs: seq<T -> T>): (c: T -> T)
    ensures forall x :: c(x) == Nested(fs, x)
  {
    ReduceRightIsNestedEverywhere(fs);
    x => ReduceRight(fs, x)
  }

  /** `pipe(...fns)`: the returned function applies `fs` left to right, that is,
      it applies the reversed sequence right to left. */
  function Pipe<T(!new)>(fs: seq<T -> T>): (p: T -> T)
    ensures forall x :: p(x) == Nested(Reversed(fs), x)
  {
    ReduceIsNestedReversedEverywhere(fs);
    x => Reduce(fs, x)
  }

  /** Applying `init + [f]` right to left is applying `f` and then `init`. */
  lemma {:induction false} NestedSnoc<T>(init: seq<T -> T>, f: T -> T, x: T)
    ensures Nested(init + [f], x) == Nested(init, f(x))
    decreases |init|
  {
    if |init| != 0 {
      assert (init + [f])[1..] == init[1..] + [f];
      NestedSnoc(init[1..], f, x);
    }
  }

  /** `reduceRight` computes exactly the nested call. */
  lemma {:induction false} ReduceRightIsNested<T>(fs: seq<T -> T>, x: T)
    ensures ReduceRight(fs, x) == Nested(fs, x)
    decreases |fs|
  {
    if |fs| != 0 {
      var init, last := fs[..|fs| - 1], fs[|fs| - 1];
      ReduceRightIsNested(init, last(x));
      assert fs == init + [last];
      NestedSnoc(init, last, x);
    }
  }

  lemma ReduceRightIsNestedEverywhere<T>(fs: seq<T -> T>)
    ensures forall x :: ReduceRight(fs, x) == Nested(fs, x)
  {
    forall x {
      ReduceRightIsNested(fs, x);
    }
  }

  /** `reduce` computes the nested call of the reversed sequence. */
  lemma {:induction false} ReduceIsNestedReversed<T>(fs: seq<T -> T>, x: T)
    ensures Reduce(fs, x) == Nested(Reversed(fs), x)
    decreases |fs|
  {
    if |fs| != 0 {
      ReduceIsNestedReversed(fs[1..], fs[0](x));
      NestedSnoc(Reversed(fs[1..]), fs[0], x);
    }
  }

  lemma ReduceIsNestedReversedEverywhere<T>(fs: seq<T -> T>)
    ensures forall x :: Reduce(fs, x) == Nested(Reversed(fs), x)
  {
    forall x {
      ReduceIsNestedReversed(fs, x);
    }
  }

  /** Piping a sequence is composing its reverse: `pipe(fs) == compose(reverse(fs))`. */
  lemma PipeIsComposeOfReversed<T(!new)>(fs: seq<T -> T>, x: T)
    ensures Pipe(fs)(x) == Compose(Reversed(fs))(x)
  {
  }

  /** Composing a reversed sequence is piping the original one:
      `compose(fs) == pipe(reverse(fs))`. */
  lemma {:induction false} ComposeIsPipeOfReversed<T(!new)>(fs: seq<T -> T>, x: T)
    ensures Compose(fs)(x) == Pipe(Reversed(fs))(x)
  {
    ReversedTwice(fs);
  }

  /** Reversing twice gives back the sequence. */
  lemma ReversedTwice<T>(s: seq<T>)
    ensures Reversed(Reversed(s)) == s
  {
  }

  /** `compose` runs its last function first. */
  lemma {:induction false} ComposeRunsLastFirst<T(!new)>(fs: seq<T -> T>, f: T -> T, x: T)
    ensures Compose(fs + [f])(x) == Compose(fs)(f(x))
  {
    NestedSnoc(fs, f, x);
  }

  /** `pipe` runs its first function first. */
  lemma {:induction false} PipeRunsFirstFirst<T(!new)>(f: T -> T, fs: seq<T -> T>, x: T)
    ensures Pipe([f] + fs)(x) == Pipe(fs)(f(x))
  {
    assert ([f] + fs)[1..] == fs;
    assert Reversed([f] + fs) == Reversed(fs) + [f];
    NestedSnoc(Reversed(fs), f, x);
  }
}
