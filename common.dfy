/** Values shared by the schemas and the controllers: optional request
    fields, document identifiers and the caller identity attached by the
    authentication middleware. */
module Common {

  datatype Option<+T> = None | Some(value: T)

  /** A document identifier as it appears in a request or in a reference
      field (the hexadecimal text of a database ObjectId). */
  type Id = string

  predicate IsHexDigit(c: char)
  {
    ('0' <= c <= '9') || ('a' <= c <= 'f') || ('A' <= c <= 'F')
  }

  /** Whether a string can be cast to an ObjectId: 24 hexadecimal digits.
      A lookup or a reference field given anything else fails with a cast
      error, which the controllers' catch blocks turn into an error reply. */
  predicate IsObjectId(s: string)
  {
    |s| == 24 && forall i :: 0 <= i < |s| ==> IsHexDigit(s[i])
  }

  /** JavaScript truthiness of an optional string field: an absent value and
      the empty string are both falsy, so `!x` holds exactly when this is
      false. */
  predicate Present(v: Option<string>)
  {
    v.Some? && v.value != ""
  }

  /** `req.user` as left by the authentication middleware: missing
      altogether, or an object whose `_id` may be missing. */
  datatype Caller = Anonymous | Authenticated(id: Option<Id>)
}
