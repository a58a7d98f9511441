/** The exceptions the package URL code throws, as values. */
module Errors {

  datatype Error =
    /** InvalidException (lines 540-546), with its message. */
    | Invalid(message: string)
    /** EmptySegmentException (lines 551-557): a raw segment of `value` was empty. */
    | EmptySegment(value: string)
    /** IllegalSegmentContent (lines 562-568): a decoded segment of `value` held `content`. */
    | IllegalSegmentContent(content: string, value: string)
    /** IllegalArgumentException thrown by Guava's key/value splitter. */
    | IllegalArgument
    /** IllegalStateException thrown by `checkState` in `Builder.build`, with its message. */
    | IllegalState(message: string)
    /** StringIndexOutOfBoundsException thrown by `String.charAt` in `stripSlashes`. */
    | IndexOutOfBounds
  {
    /** The two segment exceptions extend InvalidException. */
    predicate IsInvalidException() {
      Invalid? || EmptySegment? || IllegalSegmentContent?
    }
  }

  /** The exception `validate` throws for a field value its pattern rejects (line 423). */
  function InvalidField(field: string, value: string): Error {
    Invalid("Invalid " + field + ": " + value)
  }
}
