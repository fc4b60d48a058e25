/** Sequence helpers shared by the text and stream models. */
module Seqs {

  /** The parts joined end to end: Python's `"".join(parts)`. */
  function Concat<T>(parts: seq<seq<T>>): seq<T> {
    if |parts| == 0 then [] else parts[0] + Concat(parts[1..])
  }
}
