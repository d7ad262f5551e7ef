/** The status codes shared by the flash device and the attribute engine. The device
    returns the first four; the engine adds `IncorrectId`. */
module Statuses {

  datatype Status = Ok | PageNotErased | ParamErr | OutOfBounds | IncorrectId
  {
    /** The numeric value the C enums give each status. */
    function Code(): (c: nat)
      ensures c < 5
      ensures c == 0 <==> this == Ok
    {
      match this
      case Ok => 0
      case PageNotErased => 1
      case ParamErr => 2
      case OutOfBounds => 3
      case IncorrectId => 4
    }
  }

  /** No two statuses share a code, so a caller comparing codes tells them apart. */
  lemma CodesDistinct(s: Status, t: Status)
    ensures s.Code() == t.Code() <==> s == t
  {
  }
}
