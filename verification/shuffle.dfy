/**
 * The in-place Fisher–Yates shuffle of index.js (`shuffle`): a counter runs from the
 * array's length down to 1; at each step an index below the counter is drawn, the
 * counter is decremented, and the elements at the counter and at the index swap.
 */
module Shuffling {
  import opened RandomSource

  /** The three assignments through `temp`: `s[i]` receives `s[j]` and `s[j]` receives the old `s[i]`. */
  function Swap<T>(s: seq<T>, i: nat, j: nat): (r: seq<T>)
    requires i < |s| && j < |s|
    ensures |r| == |s| && r[i] == s[j] && r[j] == s[i]
  {
    s[i := s[j]][j := s[i]]
  }

  /** A swap only moves elements around. */
  lemma SwapIsPermutation<T>(s: seq<T>, i: nat, j: nat)
    requires i < |s| && j < |s|
    ensures multiset(Swap(s, i, j)) == multiset(s)
  {
  }

  /**
   * What the shuffle loop produces from `s` when `counter` iterations remain and
   * the next value it draws is the `next`-th of `stream`.
   */
  function ShuffleFrom<T>(s: seq<T>, counter: nat, stream: nat -> nat, next: nat): (r: seq<T>)
    requires counter <= |s|
    ensures |r| == |s|
    decreases counter
  {
    if counter == 0 then s
    else
      var index := Draw(stream, next, counter);
      ShuffleFrom(Swap(s, counter - 1, index), counter - 1, stream, next + 1)
  }

  /** The shuffle of the whole of `s`, drawing from `stream` starting at position `next`. */
  function Shuffled<T>(s: seq<T>, stream: nat -> nat, next: nat): seq<T>
  {
    ShuffleFrom(s, |s|, stream, next)
  }

  /** The remaining iterations only touch positions below `counter`: the elements above it are in their final place. */
  lemma {:induction false} ShuffleFromKeepsPlaced<T>(s: seq<T>, counter: nat, stream: nat -> nat, next: nat)
    requires counter <= |s|
    ensures forall k :: counter <= k < |s| ==> ShuffleFrom(s, counter, stream, next)[k] == s[k]
    decreases counter
  {
    if counter > 0 {
      var swapped := Swap(s, counter - 1, Draw(stream, next, counter));
      ShuffleStep(s, counter, stream, next);
      ShuffleFromKeepsPlaced(swapped, counter - 1, stream, next + 1);
    }
  }

  /** Every remaining iteration of the loop is a swap, so it keeps the multiset of elements. */
  lemma {:induction false} ShuffleFromIsPermutation<T>(s: seq<T>, counter: nat, stream: nat -> nat, next: nat)
    requires counter <= |s|
    ensures multiset(ShuffleFrom(s, counter, stream, next)) == multiset(s)
    decreases counter
  {
    if counter > 0 {
      var swapped := Swap(s, counter - 1, Draw(stream, next, counter));
      calc {
        multiset(ShuffleFrom(s, counter, stream, next));
        { ShuffleStep(s, counter, stream, next); }
        multiset(ShuffleFrom(swapped, counter - 1, stream, next + 1));
        { ShuffleFromIsPermutation(swapped, counter - 1, stream, next + 1); }
        multiset(swapped);
        { SwapIsPermutation(s, counter - 1, Draw(stream, next, counter)); }
        multiset(s);
      }
    }
  }

  /** The shuffle is a permutation of its input: same length, same multiset of elements. */
  lemma ShuffledIsPermutation<T>(s: seq<T>, stream: nat -> nat, next: nat)
    ensures |Shuffled(s, stream, next)| == |s|
    ensures multiset(Shuffled(s, stream, next)) == multiset(s)
    ensures forall x :: x in Shuffled(s, stream, next) <==> x in s
  {
    var r := Shuffled(s, stream, next);
    ShuffleFromIsPermutation(s, |s|, stream, next);
    forall x
      ensures x in r <==> x in s
    {
      assert x in r <==> x in multiset(r);
      assert x in s <==> x in multiset(s);
    }
  }

  /** Two shuffles of the same input from the same stream position are equal. */
  lemma {:induction false} ShuffleDeterministic<T>(s: seq<T>, counter: nat, stream1: nat -> nat, stream2: nat -> nat, next: nat)
    requires counter <= |s|
    requires forall i :: next <= i < next + counter ==> stream1(i) == stream2(i)
    ensures ShuffleFrom(s, counter, stream1, next) == ShuffleFrom(s, counter, stream2, next)
    decreases counter
  {
    if counter > 0 {
      assert stream1(next) == stream2(next);
      ShuffleDeterministic(Swap(s, counter - 1, Draw(stream1, next, counter)), counter - 1, stream1, stream2, next + 1);
    }
  }

  /** One iteration of the loop: draw, decrement, swap. */
  lemma ShuffleStep<T>(s: seq<T>, counter: nat, stream: nat -> nat, next: nat)
    requires 0 < counter <= |s|
    ensures ShuffleFrom(s, counter, stream, next)
         == ShuffleFrom(Swap(s, counter - 1, Draw(stream, next, counter)), counter - 1, stream, next + 1)
  {
  }

  /** The swap through `temp` at the end of each iteration, done on the array. */
  method Exchange<T>(a: array<T>, i: nat, j: nat)
    requires i < a.Length && j < a.Length
    modifies a
    ensures a[..] == Swap(old(a[..]), i, j)
  {
    var temp := a[i];
    a[i] := a[j];
    a[j] := temp;
  }

  /**
   * `shuffle(arr)`: permutes `a` in place, drawing one value per element, and
   * returns (here: leaves in `a`) the shuffled array.
   */
  method Shuffle<T>(a: array<T>, rng: Random)
    modifies a, rng
    ensures a[..] == Shuffled(old(a[..]), rng.stream, old(rng.drawn))
    ensures rng.drawn == old(rng.drawn) + a.Length
  {
    var counter := a.Length;
    while counter > 0
      invariant 0 <= counter <= a.Length
      invariant rng.drawn == old(rng.drawn) + (a.Length - counter)
      invariant ShuffleFrom(a[..], counter, rng.stream, rng.drawn) == Shuffled(old(a[..]), rng.stream, old(rng.drawn))
      decreases counter
    {
      ghost var before, next := a[..], rng.drawn;
      var index := rng.Below(counter);
      ShuffleStep(before, counter, rng.stream, next);
      counter := counter - 1;
      Exchange(a, counter, index);
    }
    assert a[..] == ShuffleFrom(a[..], 0, rng.stream, rng.drawn);
  }
}
