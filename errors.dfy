/** The exceptions the geometry fields raise, as values. */
module Errors {

  datatype Error =
    /** A database literal that is not well formed. */
    | ParseError(reason: string)
    /** A value refused on save; the message is the exception's text. */
    | ValueError(message: string)
    /** A column type requested for a database engine other than PostgreSQL. */
    | FieldError(message: string)

  /** The message of the exception raised when a polygon does not close. */
  const NotSelfClosing: string := "Not self-closing polygon"
}
