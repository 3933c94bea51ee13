/** The optional value the stream library takes from fp-ts (`option.Option`),
    reduced to what the modelled operators use, and the integer helpers
    `Min`, `Max` and `Clamp` that the operators' counts need. */
module Wrappers {

  datatype Option<+T> = None | Some(value: T) {

    /** The elements an `Option` contributes to a stream: none or exactly one. */
    function ToSeq(): (r: seq<T>)
      ensures |r| <= 1
      ensures Some? <==> |r| == 1
      ensures Some? ==> r[0] == value
    {
      match this
      case None => []
      case Some(v) => [v]
    }
  }

  function Min(a: int, b: int): int {
    if a <= b then a else b
  }

  function Max(a: int, b: int): int {
    if a <= b then b else a
  }

  /** A count `n` taken from the caller, normalised to a length usable on a
      sequence of length `len`: negative counts become 0, counts beyond the
      end become `len`. */
  function Clamp(n: int, len: nat): (k: nat)
    ensures k <= len
    ensures n <= 0 ==> k == 0
    ensures n >= len ==> k == len
    ensures 0 <= n <= len ==> k == n
  {
    if n <= 0 then 0 else if n >= len then len else n
  }
}
