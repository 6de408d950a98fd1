/** The C library's `rand()`, seen from the program: a process-wide source
    that yields the next non-negative draw each time it is called. Its
    seeding (`srand(time(NULL))`) and internal algorithm are not modelled;
    the draws it will produce are supplied as a sequence instead. */
module Rand {

  class RandSource {
    /** The draws `rand()` has yet to return, in order. */
    var pending: seq<nat>

    constructor (stream: seq<nat>)
      ensures pending == stream
    {
      pending := stream;
    }

    /** One call to `rand()`: returns the next draw and consumes it. */
    method Next() returns (r: nat)
      requires pending != []
      modifies this
      ensures r == old(pending)[0]
      ensures pending == old(pending)[1..]
    {
      r := pending[0];
      pending := pending[1..];
    }
  }
}
