/** The few facts about the JavaScript runtime that the handler's behaviour depends on:
    thrown errors and the text the catch-all branch makes of them. */
module JsRuntime {

  /** A thrown `Error` object: its `name` ("TypeError", "SyntaxError", ...) and its `message`. */
  datatype JsError = JsError(name: string, message: string)

  /** The error V8 throws when a property is read from `null`. */
  function NullAccess(property: string): JsError
  {
    JsError("TypeError", "Cannot read properties of null (reading '" + property + "')")
  }

  /** The error V8 throws when an object converts to neither a string nor a number
      because none of its conversion methods can be called. */
  const NotPrimitive: JsError := JsError("TypeError", "Cannot convert object to primitive value")

  /** `String(error && error.message ? error.message : error)`: the message when it is
      non-empty; otherwise `String(error)`, which for an error with an empty message is
      `Error.prototype.toString`, that is, the name alone. */
  function ErrorText(e: JsError): string
  {
    if e.message != "" then e.message else e.name
  }
}
