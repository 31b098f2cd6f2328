/** The N-API enumerations the utility functions inspect. */
module Napi {

  /** napi_status, in the order N-API declares it. */
  datatype Status =
    | Ok
    | InvalidArg
    | ObjectExpected
    | StringExpected
    | NameExpected
    | FunctionExpected
    | NumberExpected
    | BooleanExpected
    | ArrayExpected
    | GenericFailure
    | PendingException
    | Cancelled
    | EscapeCalledTwice
    | HandleScopeMismatch
    | CallbackScopeMismatch
    | QueueFull
    | Closing
    | BigintExpected

  /**
    napi_valuetype: the nine types the addon names (codes 0 to 8), and any
    other value of the enumeration (napi_bigint, code 9, or one added by a
    later N-API version).
   */
  datatype ValueType =
    | Undefined
    | Null
    | Boolean
    | Number
    | String
    | Symbol
    | Object
    | Function
    | External
    | Unlisted(code: UnlistedCode)

  /** The nine listed types are codes 0 to 8; every other code is unlisted. */
  type UnlistedCode = c: int | c < 0 || 8 < c witness 9
}
