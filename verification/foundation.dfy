/** Small value types shared by the model: optional values, results with an
    error, and Foundation's NSRange (an unsigned location plus a length). */
module Foundation {

  /** A value that may be absent, standing for a nil object reference. */
  datatype Option<+T> = None | Some(value: T)

  /** The outcome of an operation that can fail. */
  datatype Result<+T, +E> = Success(value: T) | Failure(error: E)

  /** NSRange: the half-open span [location, location + length). */
  datatype NSRange = NSRange(location: nat, length: nat)
  {
    /** One past the last position of the range (NSMaxRange). */
    function End(): nat { location + length }
  }

  /** The last element of a non-empty sequence. */
  function Last<T>(s: seq<T>): T
    requires |s| > 0
  {
    s[|s| - 1]
  }

  /** Flattens a sequence of sequences, keeping the order of the parts. */
  function Concat<T>(parts: seq<seq<T>>): seq<T>
  {
    if |parts| == 0 then [] else Concat(parts[..|parts| - 1]) + parts[|parts| - 1]
  }
}
