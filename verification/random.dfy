/**
 * The generator's only source of nondeterminism: `Math.floor(Math.random() * n)`.
 *
 * The floating-point value itself is not modelled. A random source is an infinite
 * stream of raw integers; the `i`-th draw in range `n` yields `stream(i) % n`.
 * Every sequence of in-range draws is produced by some stream, so a property proved
 * for every stream holds for every run. A run is a function of its stream: the maze
 * `MazeGenerator.Generate` carves is `Carving.Layout` of the stream it draws from.
 */
module RandomSource {

  /** The integer the `i`-th draw yields for `Math.floor(Math.random() * n)`. */
  function Draw(stream: nat -> nat, i: nat, n: nat): (k: nat)
    requires n > 0
    ensures k < n
  {
    stream(i) % n
  }

  /** The ambient random source: a fixed stream and the number of values already drawn. */
  class Random {
    const stream: nat -> nat
    var drawn: nat

    constructor (stream: nat -> nat)
      ensures this.stream == stream && drawn == 0
    {
      this.stream := stream;
      drawn := 0;
    }

    /** One evaluation of `Math.floor(Math.random() * n)`. */
    method Below(n: nat) returns (k: nat)
      requires n > 0
      modifies this
      ensures k < n
      ensures k == Draw(stream, old(drawn), n) && drawn == old(drawn) + 1
    {
      k := Draw(stream, drawn, n);
      drawn := drawn + 1;
    }
  }
}
