/** The error codes field setters return (the RM_ERR_* constants). */
module Errors {

  datatype Err = Ok | IntRange | IntInv | HexInvSize | HexInvDigit | StrTooLong
  {
    /** The numeric code the C functions return; 0 is success. */
    function Code(): (c: nat)
      ensures (c == 0) == Ok?
    {
      match this
      case Ok => 0
      case IntRange => 1
      case IntInv => 2
      case HexInvSize => 10
      case HexInvDigit => 11
      case StrTooLong => 20
    }
  }

  /** Distinct errors have distinct codes, so a caller testing the returned
      integer can tell every failure apart. */
  lemma CodeInjective(e1: Err, e2: Err)
    ensures e1.Code() == e2.Code() ==> e1 == e2
  {
  }
}
