/**
 * The errors an action revelation raises. In the source every error is a JS
 * `Error` whose message is "<KIND>: <text>"; here the kind and the text are
 * kept apart.
 */
module Errors {

  datatype ErrorKind = InvalidPath | InvalidValue | InvalidOperation | NoFeedData

  datatype Error = Error(kind: ErrorKind, message: string)

  // Path validation (src/actionrevelation.js:147-160)
  const PathNotArray := "Path must be an array."
  const FirstElementNotString := "First path element must be a string if present."
  const LaterElementInvalid := "Second and later path elements must be strings or non-negative integers."

  // Value validation (src/actionrevelation.js:231-246)
  const CircularReference := "Circular reference present. Must be a JSON-expressible value."
  const ValueMissing := "Must specify a JSON-expressible value."
  const UndefinedPresent := "Undefined value present. Must be a JSON-expressible value."

  // Payload types and root policy of the delta operations
  const RootNotObject := "Can only write an object to the root."
  const StringRequired := "String value required."
  const NumberRequired := "Numeric value required."
  const DeleteRoot := "Cannot delete the root."
  const StringOpsOnRoot := "Cannot perform string operations on the root."
  const NumberOpsOnRoot := "Cannot perform number operations on the root."
  const BooleanOpsOnRoot := "Cannot perform boolean operations on the root."
  const ArrayOpsOnRoot := "Cannot perform array operations on the root."

  // Application of a delta to feed data
  const NonExistentLocation := "Path references a non-existent location in the feed data."

  // Reading the feed data of a revelation built without old feed data
  const NoOldFeedData := "Old feed data was not supplied."

  /** The one error the delta writer raises. */
  const BadLocation := Error(InvalidOperation, NonExistentLocation)
}
