/** The page's source of randomness, `Math.random`, made explicit: the k-th call
    returns `draws(k)`, and `next` counts the calls made so far. */
module Draws {

  class Random {
    const draws: nat -> real
    var next: nat

    constructor (draws: nat -> real)
      ensures this.draws == draws && next == 0
    {
      this.draws := draws;
      next := 0;
    }

    /** One call of `Math.random()`: the next draw of the stream. */
    method Next() returns (x: real)
      modifies this
      ensures x == draws(old(next)) && next == old(next) + 1
    {
      x := draws(next);
      next := next + 1;
    }
  }
}
