/**
 * What one call of the serializer produces: the text and the notices raised
 * on the way (`trigger_error`), or the exception that ended the call.
 */
module Outcomes {
  import opened Text

  /** The exceptions that end a call; no partial text survives them. */
  datatype Error =
    /** "Serialization of 'Closure' is not allowed" */
    | ClosureNotAllowed
    /** "Serialization of 'class@anonymous' is not allowed" */
    | AnonymousClassNotAllowed
    /** `__sleep` returned something other than an array: the notice
        "__sleep should return an array only containing the names of
        instance-variables to serialize" is raised, then `array_diff`
        throws a TypeError because its first argument is not an array. */
    | SleepNotArray

  /** A notice raised while the call goes on. */
  datatype Notice =
    /** "\"<name>\" returned as member variable from __sleep() but does not
        exist", for the first name `__sleep` returned that is not a
        property. */
    | MissingSleepMember(name: Bytes)

  datatype Result<+T> = Ok(value: T) | Err(error: Error)

  /** Serialized text and the notices raised while producing it, in order. */
  datatype Encoded = Encoded(text: Bytes, notices: seq<Notice>)
}
